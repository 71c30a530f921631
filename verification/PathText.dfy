/**
 * The text of a path: slashes, components, and what splicing two texts does to their components
 * (kernel/kernel/vfs/path.c). A string is the characters before the terminating NUL.
 */
module PathText {
  const NUL := '\0'

  ghost predicate NulFree(s: string)
  {
    forall k :: 0 <= k < |s| ==> s[k] != NUL
  }

  function SkipSlashes(s: string): string
  {
    if s != "" && s[0] == '/' then SkipSlashes(s[1..]) else s
  }

  lemma {:induction false} Skipped(s: string)
    ensures |SkipSlashes(s)| <= |s|
    ensures SkipSlashes(s) == s[|s| - |SkipSlashes(s)|..]
    ensures SkipSlashes(s) != "" ==> SkipSlashes(s)[0] != '/'
    ensures forall k :: 0 <= k < |s| - |SkipSlashes(s)| ==> s[k] == '/'
  {
    if s != "" && s[0] == '/' {
      Skipped(s[1..]);
      var n := |SkipSlashes(s)|;
      assert s[1..][|s| - 1 - n..] == s[|s| - n..];
    }
  }

  /** The characters before the first slash. */
  function First(s: string): (r: string)
    ensures |r| <= |s| && r == s[..|r|] && '/' !in r && (|r| < |s| ==> s[|r|] == '/')
  {
    if s == "" || s[0] == '/' then "" else [s[0]] + First(s[1..])
  }

  /** The first component is the only slash-free prefix that ends at a slash or at the end. */
  lemma {:induction false} FirstUnique(s: string, n: nat)
    requires n <= |s| && '/' !in s[..n] && (n < |s| ==> s[n] == '/')
    ensures First(s) == s[..n]
  {
  }

  /** The non-empty components of a path. */
  function Components(s: string): (r: seq<string>)
    decreases |s|
  {
    Skipped(s);
    var p := SkipSlashes(s);
    if p == "" then []
    else
      FirstNonEmpty(p);
      [First(p)] + Components(p[|First(p)|..])
  }

  lemma {:induction false} FirstNonEmpty(p: string)
    requires p != "" && p[0] != '/'
    ensures First(p) != ""
  {
  }

  lemma {:induction false} SkipAppend(t: string, q: string)
    ensures SkipSlashes(t + q) == if SkipSlashes(t) == "" then SkipSlashes(q) else SkipSlashes(t) + q
  {
    if t == "" {
      assert t + q == q;
    } else if t[0] == '/' {
      assert (t + q)[1..] == t[1..] + q;
      SkipAppend(t[1..], q);
    }
  }

  lemma {:induction false} FirstAppend(p: string, q: string)
    requires q == "" || q[0] == '/'
    ensures First(p + q) == First(p)
    ensures (p + q)[|First(p)|..] == p[|First(p)|..] + q
  {
    var n := |First(p)|;
    assert (p + q)[..n] == p[..n];
    FirstUnique(p + q, n);
  }

  /** Splicing: a text, then a text that is empty or starts with a slash. */
  lemma {:induction false} SplicedComponents(t: string, q: string)
    requires q == "" || q[0] == '/'
    ensures Components(t + q) == Components(t) + Components(q)
    decreases |t|
  {
    Skipped(t);
    SkipAppend(t, q);
    var p := SkipSlashes(t);
    if p == "" {
      SkippedComponents(t + q, q);
      assert Components(t) + Components(q) == Components(q);
    } else {
      FirstNonEmpty(p);
      SplicedComponents(p[|First(p)|..], q);
      SplicedFirst(t, q);
    }
  }

  lemma {:induction false} SplicedFirst(t: string, q: string)
    requires (q == "" || q[0] == '/') && SkipSlashes(t) != "" && SkipSlashes(t + q) == SkipSlashes(t) + q
    requires var r := SkipSlashes(t)[|First(SkipSlashes(t))|..];
             Components(r + q) == Components(r) + Components(q)
    ensures Components(t + q) == Components(t) + Components(q)
  {
    hide First, SkipSlashes, Components;
    var p := SkipSlashes(t);
    FirstAppend(p, q);
    Unfolded(t);
    Unfolded(t + q);
  }

  lemma {:induction false} SkippedComponents(s: string, q: string)
    requires SkipSlashes(s) == SkipSlashes(q)
    ensures Components(s) == Components(q)
  {
  }

  lemma {:induction false} Unfolded(s: string)
    requires SkipSlashes(s) != ""
    ensures var p := SkipSlashes(s);
            |First(p)| <= |p| && Components(s) == [First(p)] + Components(p[|First(p)|..])
  {
  }

  /** A text that begins with a given component. */
  lemma {:induction false} SlashFirst(c: string, q: string)
    requires c != "" && '/' !in c && (q == "" || q[0] == '/')
    ensures SkipSlashes(c + q) == SkipSlashes("/" + c + q) == c + q
    ensures First(c + q) == c && (c + q)[|c|..] == q
  {
    assert ("/" + c + q)[1..] == c + q;
    assert (c + q)[0] == c[0] && c[0] in c;
    assert (c + q)[..|c|] == c;
    FirstUnique(c + q, |c|);
  }
}
