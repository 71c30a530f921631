/**
 * The laws of path resolution, said of the directory contents and of the text alone: names go down, ".." goes up and
 * stops at the root, links restart, and a text without links leads where its normal form leads
 * (kernel/kernel/vfs/path.c:27-173).
 */
module PathLaws {
  import opened PathText
  import opened PathResolve
  import opened PathRuns

  /** A component other than the two dot names. */
  predicate IsName(c: string)
  {
    c != "" && c != "." && c != ".." && '/' !in c
  }

  /** What follows a component. */
  predicate IsTail(q: string)
  {
    q == "" || q[0] == '/'
  }

  /** The directory of node has c, for the object x. */
  ghost predicate Has(fs: Fs, node: Dentry, c: string, x: nat)
  {
    node.inode in fs && fs[node.inode].Directory? && c in fs[node.inode].entries && fs[node.inode].entries[c] == x
  }

  ghost predicate HasNot(fs: Fs, node: Dentry, c: string)
  {
    node.inode !in fs || !fs[node.inode].Directory? || c !in fs[node.inode].entries
  }

  ghost predicate NotLink(fs: Fs, x: nat)
  {
    x in fs ==> !fs[x].Link? && !fs[x].UnreadableLink?
  }

  // ---------- one component ----------

  /** A name that is there leads to its entry below the directory, which keeps the first 255 characters. */
  lemma {:induction false} NameDown(fs: Fs, root: Dentry, node: Dentry, c: string, q: string, x: nat, depth: nat,
                                    follow: bool, allow: bool)
    requires depth < 40 && IsName(c) && IsTail(q) && Has(fs, node, c, x) && NotLink(fs, x)
    ensures var name := if |c| <= 255 then c else c[..255];
            Walk(fs, root, node, c + q, depth, follow, allow) ==
            Walk(fs, root, Child(name, node, x), q, depth, follow, allow)
  {
    SlashFirst(c, q);
  }

  /** A name that is not there fails, unless the last entry may be missing and nothing but slashes follows. */
  lemma {:induction false} NameMissing(fs: Fs, root: Dentry, node: Dentry, c: string, q: string, depth: nat,
                                       follow: bool, allow: bool)
    requires depth < 40 && IsName(c) && IsTail(q) && HasNot(fs, node, c)
    ensures Walk(fs, root, node, c + q, depth, follow, allow) ==
            if allow && (forall k :: 0 <= k < |q| ==> q[k] == '/') then Missing(node, c) else Failed
  {
    SlashFirst(c, q);
    Skipped(q);
  }

  /** One step up goes to the parent, and from the root it stays. */
  lemma {:induction false} StepUp(fs: Fs, root: Dentry, node: Dentry, q: string, depth: nat, follow: bool, allow: bool)
    requires depth < 40 && IsTail(q) && (node == root || node.Child?)
    ensures Walk(fs, root, node, ".." + q, depth, follow, allow) ==
            Walk(fs, root, if node == root then root else node.parent, q, depth, follow, allow)
  {
    SlashFirst("..", q);
  }

  /** A dot leads nowhere else. */
  lemma {:induction false} StepSame(fs: Fs, root: Dentry, node: Dentry, q: string, depth: nat, follow: bool,
                                    allow: bool)
    requires depth < 40 && IsTail(q)
    ensures Walk(fs, root, node, "." + q, depth, follow, allow) == Walk(fs, root, node, q, depth, follow, allow)
  {
    SlashFirst(".", q);
  }

  /** Going down to an entry that is not a link and up again is no step at all. */
  lemma {:induction false} DownUp(fs: Fs, root: Dentry, node: Dentry, c: string, q: string, x: nat, depth: nat,
                                  follow: bool, allow: bool)
    requires depth < 40 && IsName(c) && |c| <= 255 && IsTail(q) && Under(root, node)
    requires Has(fs, node, c, x) && NotLink(fs, x)
    ensures Walk(fs, root, node, c + "/.." + q, depth, follow, allow) == Walk(fs, root, node, q, depth, follow, allow)
  {
    hide Walk, Has, NotLink;
    var child := Child(c, node, x);
    assert c + "/.." + q == c + ("/.." + q);
    NameDown(fs, root, node, c, "/.." + q, x, depth, follow, allow);
    SlashStep(fs, root, child, ".." + q, depth, follow, allow);
    assert "/" + (".." + q) == "/.." + q;
    AboveIsOther(root, node, child);
    StepUp(fs, root, child, q, depth, follow, allow);
  }

  lemma {:induction false} SlashStep(fs: Fs, root: Dentry, node: Dentry, p: string, depth: nat, follow: bool,
                                     allow: bool)
    requires depth < 40
    ensures Walk(fs, root, node, "/" + p, depth, follow, allow) == Walk(fs, root, node, p, depth, follow, allow)
  {
    assert ("/" + p)[1..] == p;
  }

  /** An entry below one under the root is not the root. */
  lemma {:induction false} AboveIsOther(root: Dentry, node: Dentry, child: Dentry)
    requires Under(root, node) && child.Child? && child.parent == node
    ensures child != root
  {
    Deeper(root, node);
  }

  function Height(d: Dentry): nat
  {
    if d.Top? then 0 else 1 + Height(d.parent)
  }

  lemma {:induction false} Deeper(root: Dentry, d: Dentry)
    requires Under(root, d)
    ensures Height(d) >= Height(root)
  {
    if d != root {
      Deeper(root, d.parent);
    }
  }

  /** A text with a leading slash starts at the root wherever the caller stands, any other text where the caller
      stands. */
  lemma {:induction false} Starts(fs: Fs, root: Dentry, start: Dentry, path: string, follow: bool, allow: bool)
    ensures Resolve(fs, root, start, "/" + path, 0, follow, allow) == Walk(fs, root, root, path, 0, follow, allow)
    ensures path != "" && path[0] != '/' ==>
              Resolve(fs, root, start, path, 0, follow, allow) == Walk(fs, root, start, path, 0, follow, allow)
    ensures Resolve(fs, root, start, "", 0, follow, allow) == Found(start)
  {
    SlashStep(fs, root, root, path, 0, follow, allow);
  }

  // ---------- links ----------

  /** A link as the last component is not followed when the caller says so; one whose target cannot be read fails when
      it would be followed. */
  lemma {:induction false} LinkEnds(fs: Fs, root: Dentry, node: Dentry, c: string, q: string, x: nat, depth: nat,
                                    follow: bool, allow: bool)
    requires depth < 40 && IsName(c) && |c| <= 255 && IsTail(q) && Has(fs, node, c, x) && x in fs
    ensures fs[x].UnreadableLink? && (follow || q != "") ==>
              Walk(fs, root, node, c + q, depth, follow, allow) == Failed
    ensures (fs[x].Link? || fs[x].UnreadableLink?) && !follow && q == "" ==>
              Walk(fs, root, node, c + q, depth, follow, allow) == Found(Child(c, node, x))
  {
    SlashFirst(c, q);
    WalkEnd(fs, root, Child(c, node, x), depth, follow, allow);
  }

  /** Any other link restarts from the root or from its own directory with its target in front of the rest, one link
      deeper; the fortieth is refused. The text is cut off after 4095 characters. */
  lemma {:induction false} LinkStep(fs: Fs, root: Dentry, node: Dentry, c: string, q: string, x: nat, depth: nat,
                                    follow: bool, allow: bool)
    requires depth < 40 && IsName(c) && IsTail(q) && Has(fs, node, c, x) && x in fs && fs[x].Link?
    requires fs[x].target != "" && (follow || q != "")
    ensures var t := fs[x].target;
            var text := if |t + q| <= 4095 then t + q else (t + q)[..4095];
            Walk(fs, root, node, c + q, depth, follow, allow) ==
            if depth == 39 then Failed
            else Walk(fs, root, if t[0] == '/' then root else node, text, depth + 1, follow, allow)
  {
    SlashFirst(c, q);
    SplicedCut(fs[x].target, q);
    assert (fs[x].target + q)[0] == fs[x].target[0];
  }

  lemma {:induction false} SplicedCut(t: string, q: string)
    ensures Clip(Clip(t, MAX_TEXT) + q, MAX_TEXT) == if |t + q| <= 4095 then t + q else (t + q)[..4095]
  {
    if |t| > 4095 {
      assert (t[..4095] + q)[..4095] == t[..4095] == (t + q)[..4095];
    }
  }

  /** Entry k of a chain: a link to the next name, or at the end no link. */
  ghost predicate ChainAt(fs: Fs, node: Dentry, names: seq<string>, k: nat)
    requires k < |names|
  {
    && IsName(names[k]) && |names[k]| <= 255 && node.inode in fs && fs[node.inode].Directory?
    && names[k] in fs[node.inode].entries
    && var x := fs[node.inode].entries[names[k]];
       if k + 1 < |names| then x in fs && fs[x] == Link(names[k + 1]) else NotLink(fs, x)
  }

  /** Each name of a directory but the last is a link to the next one. */
  ghost predicate Chain(fs: Fs, node: Dentry, names: seq<string>)
  {
    names != [] && forall k: nat :: k < |names| ==> ChainAt(fs, node, names, k)
  }

  /** A chain of links is followed to its end exactly when it has fewer than forty. */
  lemma {:induction false} ChainIff(fs: Fs, root: Dentry, node: Dentry, names: seq<string>, depth: nat, allow: bool)
    requires depth < 40 && Chain(fs, node, names)
    ensures var last := names[|names| - 1];
            && ChainAt(fs, node, names, |names| - 1)
            && Walk(fs, root, node, names[0], depth, true, allow) ==
               if depth + |names| - 1 < 40 then Found(Child(last, node, fs[node.inode].entries[last])) else Failed
    decreases |names|
  {
    hide Walk;
    assert ChainAt(fs, node, names, 0) && ChainAt(fs, node, names, |names| - 1);
    var c := names[0];
    var x := fs[node.inode].entries[c];
    assert c + "" == c;
    if |names| == 1 {
      NameDown(fs, root, node, c, "", x, depth, true, allow);
      WalkEnd(fs, root, Child(c, node, x), depth, true, allow);
    } else {
      ChainTail(fs, node, names);
      assert names[1..][0] == names[1] && names[1] + "" == names[1] && names[1][0] in names[1];
      LinkStep(fs, root, node, c, "", x, depth, true, allow);
      if depth < 39 {
        ChainIff(fs, root, node, names[1..], depth + 1, allow);
      }
    }
  }

  lemma {:induction false} ChainTail(fs: Fs, node: Dentry, names: seq<string>)
    requires Chain(fs, node, names) && |names| > 1
    ensures Chain(fs, node, names[1..]) && ChainAt(fs, node, names[1..], 0)
  {
    forall k: nat | k < |names[1..]| ensures ChainAt(fs, node, names[1..], k) {
      assert ChainAt(fs, node, names, k + 1);
    }
  }

  lemma {:induction false} WalkEnd(fs: Fs, root: Dentry, node: Dentry, depth: nat, follow: bool, allow: bool)
    requires depth < 40
    ensures Walk(fs, root, node, "", depth, follow, allow) == Found(node)
  {
    assert SkipSlashes("") == "";
  }

  // ---------- the normal form ----------

  /** The names on the way from the root down to d. */
  function Trail(root: Dentry, d: Dentry): seq<string>
    requires Under(root, d)
  {
    if d == root then [] else Trail(root, d.parent) + [d.name]
  }

  /** A text of components applied to a list of names: names are added, ".." takes the last one away if there is one. */
  function Normal(names: seq<string>, cs: seq<string>): seq<string>
    decreases |cs|
  {
    if cs == [] then names
    else if cs[0] == "." then Normal(names, cs[1..])
    else if cs[0] == ".." then Normal(if names == [] then [] else names[..|names| - 1], cs[1..])
    else Normal(names + [cs[0]], cs[1..])
  }

  /** The object that a list of names leads to from an object, by directory contents alone. */
  function Reached(fs: Fs, i: nat, names: seq<string>): Option<nat>
    decreases |names|
  {
    if names == [] then Some(i)
    else if i in fs && fs[i].Directory? && names[0] in fs[i].entries then
      Reached(fs, fs[i].entries[names[0]], names[1..])
    else None
  }

  lemma {:induction false} ReachedAppend(fs: Fs, i: nat, names: seq<string>, c: string)
    ensures var d := Reached(fs, i, names);
            Reached(fs, i, names + [c]) ==
            if d.Some? && d.value in fs && fs[d.value].Directory? && c in fs[d.value].entries
            then Some(fs[d.value].entries[c]) else None
    decreases |names|
  {
    if names == [] {
      assert [c][1..] == [];
    } else {
      assert (names + [c])[1..] == names[1..] + [c];
      if i in fs && fs[i].Directory? && names[0] in fs[i].entries {
        ReachedAppend(fs, fs[i].entries[names[0]], names[1..], c);
      }
    }
  }

  ghost predicate LinkFree(fs: Fs)
  {
    forall i :: i in fs ==> !fs[i].Link? && !fs[i].UnreadableLink?
  }

  /** Every stage of the text exists. */
  ghost predicate StagesExist(fs: Fs, i: nat, names: seq<string>, cs: seq<string>)
  {
    forall k :: 0 <= k <= |cs| ==> Reached(fs, i, Normal(names, cs[..k])).Some?
  }

  lemma {:induction false} NormalStep(names: seq<string>, cs: seq<string>, names1: seq<string>, k: nat)
    requires cs != [] && 0 < k <= |cs| && names1 == Normal(names, [cs[0]])
    ensures Normal(names, cs[..k]) == Normal(names1, cs[1..][..k - 1])
  {
    assert cs[..k][1..] == cs[1..][..k - 1];
    assert [cs[0]][1..] == [];
  }

  lemma {:induction false} StagesStep(fs: Fs, i: nat, names: seq<string>, cs: seq<string>, names1: seq<string>)
    requires cs != [] && names1 == Normal(names, [cs[0]]) && Reached(fs, i, names).Some?
    ensures StagesExist(fs, i, names, cs) <==> StagesExist(fs, i, names1, cs[1..])
  {
    assert cs[..0] == [];
    forall k | 0 <= k <= |cs|
      ensures k > 0 ==> Normal(names, cs[..k]) == Normal(names1, cs[1..][..k - 1])
    {
      if k > 0 {
        NormalStep(names, cs, names1, k);
      }
    }
    if StagesExist(fs, i, names, cs) {
      forall k | 0 <= k <= |cs[1..]| ensures Reached(fs, i, Normal(names1, cs[1..][..k])).Some? {
        assert Normal(names, cs[..k + 1]) == Normal(names1, cs[1..][..k]);
      }
    }
  }

  /** Where the entry of a node is, in the directory contents. */
  lemma {:induction false} TrailReached(fs: Fs, root: Dentry, d: Dentry)
    requires Genuine(fs, root, d) && Under(root, d)
    ensures Reached(fs, root.inode, Trail(root, d)) == Some(d.inode)
  {
    if d != root {
      TrailReached(fs, root, d.parent);
      ReachedAppend(fs, root.inode, Trail(root, d.parent), d.name);
    }
  }

  lemma {:induction false} NormalOne(names: seq<string>, c: string)
    ensures Normal(names, [c]) ==
            if c == "." then names
            else if c == ".." then if names == [] then [] else names[..|names| - 1]
            else names + [c]
  {
    assert [c][1..] == [];
  }

  /** d is a genuine entry under the root with the given trail. */
  ghost predicate At(fs: Fs, root: Dentry, d: Dentry, names: seq<string>)
  {
    Under(root, d) && Genuine(fs, root, d) && Trail(root, d) == names
  }

  /** One component, on entries: the trail of the entry arrived at is the normal form, and there is one exactly when
      that normal form exists. */
  lemma {:induction false} OneComponent(fs: Fs, root: Dentry, node: Dentry, c: string, q: string, depth: nat)
    returns (next: Option<Dentry>)
    requires depth < 40 && ShortNames(fs) && LinkFree(fs) && Genuine(fs, root, node) && Under(root, node)
    requires c != "" && '/' !in c && IsTail(q)
    ensures var names1 := Normal(Trail(root, node), [c]);
            var w := Walk(fs, root, node, c + q, depth, true, false);
            && (next.Some? <==> Reached(fs, root.inode, names1).Some?)
            && (next.None? ==> w == Failed)
            && (next.Some? ==>
                  At(fs, root, next.value, names1) && w == Walk(fs, root, next.value, q, depth, true, false))
  {
    hide Walk, ShortNames;
    var names := Trail(root, node);
    NormalOne(names, c);
    TrailReached(fs, root, node);
    if c == "." {
      StepSame(fs, root, node, q, depth, true, false);
      next := Some(node);
    } else if c == ".." {
      StepUp(fs, root, node, q, depth, true, false);
      next := Some(if node == root then root else node.parent);
      TrailReached(fs, root, next.value);
    } else {
      ReachedAppend(fs, root.inode, names, c);
      if node.inode in fs && fs[node.inode].Directory? && c in fs[node.inode].entries {
        var child := NameBelow(fs, root, node, c, q, depth);
        next := Some(child);
      } else {
        next := None;
        NameMissing(fs, root, node, c, q, depth, true, false);
      }
    }
  }

  lemma {:induction false} NameBelow(fs: Fs, root: Dentry, node: Dentry, c: string, q: string, depth: nat)
    returns (child: Dentry)
    requires depth < 40 && ShortNames(fs) && LinkFree(fs) && Genuine(fs, root, node) && Under(root, node)
    requires IsName(c) && IsTail(q) && node.inode in fs && fs[node.inode].Directory? && c in fs[node.inode].entries
    ensures At(fs, root, child, Trail(root, node) + [c])
    ensures Walk(fs, root, node, c + q, depth, true, false) == Walk(fs, root, child, q, depth, true, false)
  {
    hide Walk;
    var x := fs[node.inode].entries[c];
    child := Child(c, node, x);
    NameDown(fs, root, node, c, q, x, depth, true, false);
    assert Find(fs, node, c) == Some(child);
    FoundGenuine(fs, root, node, c);
    AboveIsOther(root, node, child);
  }

  /** Where there are no links, a text resolves exactly when each of its stages exists, and then to the entry its
      normal form names: ".." takes back the name before it and does nothing at the root. */
  lemma {:induction false} NormalForm(fs: Fs, root: Dentry, node: Dentry, rest: string, depth: nat)
    requires depth < 40 && ShortNames(fs) && LinkFree(fs) && Genuine(fs, root, node) && Under(root, node)
    ensures var w := Walk(fs, root, node, rest, depth, true, false);
            var names := Trail(root, node);
            && (w.Found? <==> StagesExist(fs, root.inode, names, Components(rest)))
            && (w.Found? ==> At(fs, root, w.node, Normal(names, Components(rest))))
            && !w.Missing?
    decreases |rest|
  {
    hide Walk, ShortNames, LinkFree, Genuine, Reached;
    Skipped(rest);
    var p := SkipSlashes(rest);
    SlashesAway(fs, root, node, rest, depth);
    var names := Trail(root, node);
    TrailReached(fs, root, node);
    if p == "" {
      assert Components(rest) == [] && Components(rest)[..0] == [];
      WalkEnd(fs, root, node, depth, true, false);
    } else {
      FirstNonEmpty(p);
      var c, q := First(p), p[|First(p)|..];
      assert p == c + q;
      Unfolded(rest);
      var cs := Components(rest);
      assert cs[0] == c && cs[1..] == Components(q);
      var next := OneComponent(fs, root, node, c, q, depth);
      StagesStep(fs, root.inode, names, cs, Normal(names, [c]));
      if next.Some? {
        NormalForm(fs, root, next.value, q, depth);
        NormalStep(names, cs, Normal(names, [c]), |cs|);
        assert cs[..|cs|] == cs && cs[1..][..|cs| - 1] == cs[1..];
      } else {
        assert cs[..1] == [c];
      }
    }
  }

  lemma {:induction false} SlashesAway(fs: Fs, root: Dentry, node: Dentry, rest: string, depth: nat)
    requires depth < 40
    ensures Walk(fs, root, node, rest, depth, true, false) ==
            Walk(fs, root, node, SkipSlashes(rest), depth, true, false)
    decreases |rest|
  {
    if rest != "" && rest[0] == '/' {
      assert rest == "/" + rest[1..];
      SlashStep(fs, root, node, rest[1..], depth, true, false);
      SlashesAway(fs, root, node, rest[1..], depth);
    }
  }

  /** The absolute path of an entry spells its trail, one slash before each name. */
  lemma {:induction false} NamesSpelled(fs: Fs, root: Dentry, d: Dentry)
    requires Genuine(fs, root, d) && Under(root, d)
    ensures Components(AbsolutePath(root, d)) == Trail(root, d)
    ensures var text := AbsolutePath(root, d);
            text != "" && text[0] == '/' && (d != root ==> SingleSlashes(text))
  {
    if d == root {
      assert "/"[1..] == "";
    } else {
      NamesTrail(fs, root, d);
      NamesStart(root, d);
    }
  }

  /** Every slash is followed by a character that is not one. */
  ghost predicate SingleSlashes(text: string)
  {
    forall k :: 0 <= k < |text| && text[k] == '/' ==> k + 1 < |text| && text[k + 1] != '/'
  }

  lemma {:induction false} NamesTrail(fs: Fs, root: Dentry, d: Dentry)
    requires Genuine(fs, root, d) && Under(root, d)
    ensures Components(Names(root, d)) == Trail(root, d) && SingleSlashes(Names(root, d))
  {
    if d != root {
      NamesTrail(fs, root, d.parent);
      var q := "/" + d.name;
      assert Names(root, d) == Names(root, d.parent) + q;
      SplicedComponents(Names(root, d.parent), q);
      SlashFirst(d.name, "");
      assert d.name + "" == d.name && q == "/" + d.name + "";
      Unfolded(q);
      assert Components("") == [];
    }
  }
}
