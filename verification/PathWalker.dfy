/**
 * The code of path resolution and of path building: a walk over a NUL-terminated copy of the path, in which each
 * component is cut off in place and put back, and a buffer filled name by name (kernel/kernel/vfs/path.c:27-274).
 */
module PathWalker {
  import opened PathText
  import opened PathResolve
  import opened PathRuns

  /** The buffer holds the text and its terminator. */
  ghost predicate Holds(a: array<char>, text: string)
    reads a
  {
    NulFree(text) && a.Length == |text| + 1 && a[..] == text + [NUL]
  }

  /** Copy a string and its terminator to a place in a buffer. */
  method CopyString(buff: array<char>, at: nat, s: string)
    requires at + |s| < buff.Length
    modifies buff
    ensures buff[..] == old(buff[..at]) + s + [NUL] + old(buff[at + |s| + 1..])
  {
    for i := 0 to |s|
      invariant buff[..at] == old(buff[..at]) && buff[at..at + i] == s[..i] && buff[at + i..] == old(buff[at + i..])
    {
      buff[at + i] := s[i];
    }
    buff[at + |s|] := NUL;
    assert buff[..] == buff[..at] + buff[at..at + |s|] + [buff[at + |s|]] + buff[at + |s| + 1..];
  }

  /** The string that starts at a place of a buffer. */
  method ReadString(a: array<char>, at: nat, ghost end: nat) returns (s: string)
    requires at <= end < a.Length && a[end] == NUL && NulFree(a[at..end])
    ensures s == a[at..end]
  {
    var i := at;
    s := "";
    while a[i] != NUL
      invariant at <= i <= end && s == a[at..i]
      decreases end - i
    {
      assert i != end;
      s := s + [a[i]];
      i := i + 1;
    }
  }

  method SkipFrom(a: array<char>, at: nat, ghost text: string) returns (i: nat)
    requires Holds(a, text) && at <= |text|
    ensures at <= i <= |text| && text[i..] == SkipSlashes(text[at..])
  {
    i := at;
    while a[i] == '/'
      invariant at <= i <= |text| && SkipSlashes(text[i..]) == SkipSlashes(text[at..])
      decreases |text| - i
    {
      assert a[..][i] == '/' && text[i..][1..] == text[i + 1..];
      i := i + 1;
    }
    assert i < |text| ==> a[..][i] == text[i..][0];
  }

  method ScanComponent(a: array<char>, at: nat, ghost text: string) returns (end: nat)
    requires Holds(a, text) && at <= |text|
    ensures at <= end <= |text| && text[at..end] == First(text[at..]) && text[end..] == text[at..][end - at..]
  {
    end := at;
    while a[end] != NUL && a[end] != '/'
      invariant at <= end <= |text| && '/' !in text[at..end]
      decreases |text| - end
    {
      assert a[..][end] == a[end];
      assert text[at..end + 1] == text[at..end] + [text[end]];
      end := end + 1;
    }
    assert a[..][end] == a[end];
    assert text[at..][..end - at] == text[at..end];
    FirstUnique(text[at..], end - at);
  }

  /** The component between two places, cut off by a terminator that is then undone. */
  method CutComponent(a: array<char>, at: nat, end: nat, ghost text: string) returns (c: string, saved: char)
    requires Holds(a, text) && at <= end <= |text|
    modifies a
    ensures Holds(a, text) && c == text[at..end]
    ensures saved == if end < |text| then text[end] else NUL
  {
    saved := a[end];
    assert a[..][end] == a[end];
    a[end] := NUL;
    assert a[at..end] == old(a[..])[at..end] == text[at..end];
    assert forall k :: 0 <= k < end - at ==> a[at..end][k] == text[at + k];
    c := ReadString(a, at, end);
    a[end] := saved;
    assert a[..] == old(a[..]);
  }

  /** The component at a place, where it ends, and the character after it. */
  method NextComponent(a: array<char>, at: nat, ghost text: string) returns (c: string, end: nat, saved: char)
    requires Holds(a, text) && at <= |text|
    modifies a
    ensures Holds(a, text) && at <= end <= |text| && end == at + |c|
    ensures c == First(text[at..]) && text[end..] == text[at..][|c|..] && (saved == NUL <==> text[end..] == "")
  {
    end := ScanComponent(a, at, text);
    c, saved := CutComponent(a, at, end, text);
  }

  ghost predicate NulFreeFs(fs: Fs)
  {
    forall i :: i in fs && fs[i].Link? ==> NulFree(fs[i].target)
  }

  /** The text a link is replaced by. */
  method Splice(fs: Fs, target: string, a: array<char>, end: nat, ghost text: string) returns (combined: string)
    requires Holds(a, text) && end <= |text| && NulFree(target)
    ensures combined == Clip(Clip(target, MAX_TEXT) + text[end..], MAX_TEXT) && NulFree(combined)
  {
    var read := Clip(target, MAX_TEXT);
    if a[end] == NUL {
      assert a[..][end] == a[end] && text[end..] == "";
      combined := Clip(read, MAX_TEXT);
    } else {
      assert a[..][end] == a[end];
      assert a[end..|text|] == a[..][end..|text|] == text[end..];
      var rest := ReadString(a, end, |text|);
      combined := Clip(read + rest, MAX_TEXT);
    }
  }

  /** The resolver computes the outcome that splicing defines. */
  method ResolvePath(fs: Fs, root: Dentry, start: Dentry, path: string, depth: nat, follow: bool, allow: bool)
    returns (o: Outcome)
    requires NulFree(path) && NulFreeFs(fs)
    ensures o == Resolve(fs, root, start, path, depth, follow, allow)
    decreases MAX_LINKS - depth
  {
    hide NulFree, NulFreeFs, Find, Walk, Holds, First, SkipSlashes, Up;
    if depth >= MAX_LINKS {
      return Failed;
    }
    if path == "" {
      return Found(start);
    }
    var node := if path[0] == '/' then root else start;
    var copy := MakeCopy(path);
    var ptr := 0;
    while copy[ptr] != NUL
      invariant ptr <= |path| && Holds(copy, path)
      invariant Walk(fs, root, node, path[ptr..], depth, follow, allow) ==
                Resolve(fs, root, start, path, depth, follow, allow)
      decreases |path| - ptr
    {
      WalkSkips(fs, root, node, path[ptr..], depth, follow, allow);
      ptr := SkipFrom(copy, ptr, path);
      Terminated(copy, path, ptr);
      if copy[ptr] == NUL {
        break;
      }
      WalkStep(fs, root, node, path[ptr..], depth, follow, allow);
      var c, end, saved := NextComponent(copy, ptr, path);
      if c == "." {
      } else if c == ".." {
        node := Up(root, node);
      } else {
        var found := Find(fs, node, c);
        if found.None? {
          var last := SkipFrom(copy, end, path);
          Terminated(copy, path, last);
          return if allow && copy[last] == NUL then Missing(node, c) else Failed;
        }
        if IsLink(fs, found.value) && (follow || saved != NUL) {
          var link := Object(fs, found.value.inode);
          if link.UnreadableLink? {
            return Failed;
          }
          TargetNulFree(fs, found.value.inode);
          var combined := Splice(fs, link.target, copy, end, path);
          o := ResolvePath(fs, root, Base(root, node, combined), combined, depth + 1, follow, allow);
          return;
        }
        node := found.value;
      }
      ptr := end;
    }
    Terminated(copy, path, ptr);
    WalkSkips(fs, root, node, path[ptr..], depth, follow, allow);
    return Found(node);
  }

  lemma {:induction false} TargetNulFree(fs: Fs, i: nat)
    requires NulFreeFs(fs) && Object(fs, i).Link?
    ensures NulFree(Object(fs, i).target)
  {
  }

  /** The terminator stands after the text and nowhere else. */
  lemma {:induction false} Terminated(a: array<char>, text: string, i: nat)
    requires Holds(a, text) && i <= |text|
    ensures i < a.Length && (a[i] == NUL <==> text[i..] == "")
  {
    assert a[..][i] == a[i];
  }

  lemma {:induction false} WalkSkips(fs: Fs, root: Dentry, node: Dentry, rest: string, depth: nat, follow: bool,
                                     allow: bool)
    requires depth < MAX_LINKS
    ensures var p := SkipSlashes(rest);
            && Walk(fs, root, node, rest, depth, follow, allow) == Walk(fs, root, node, p, depth, follow, allow)
            && (p != "" ==> p[0] != '/') && (rest == "" ==> p == "")
            && (p == "" ==> Walk(fs, root, node, p, depth, follow, allow) == Found(node))
  {
    Skipped(rest);
  }

  /** One component of a walk. */
  lemma {:induction false} WalkStep(fs: Fs, root: Dentry, node: Dentry, p: string, depth: nat, follow: bool,
                                    allow: bool)
    requires depth < MAX_LINKS && p != "" && p[0] != '/'
    ensures var w, c := Walk(fs, root, node, p, depth, follow, allow), First(p);
            var q, found := p[|c|..], Find(fs, node, c);
            && c != ""
            && (c == "." ==> w == Walk(fs, root, node, q, depth, follow, allow))
            && (c == ".." ==> w == Walk(fs, root, Up(root, node), q, depth, follow, allow))
            && (c != "." && c != ".." ==>
                  && (found.None? ==> w == if allow && SkipSlashes(q) == "" then Missing(node, c) else Failed)
                  && (found.Some? ==>
                        var child := found.value;
                        var link := IsLink(fs, child) && (follow || q != "");
                        && (!link ==> w == Walk(fs, root, child, q, depth, follow, allow))
                        && (link && Object(fs, child.inode).UnreadableLink? ==> w == Failed)
                        && (link && Object(fs, child.inode).Link? ==>
                              var text := Clip(Clip(Object(fs, child.inode).target, MAX_TEXT) + q, MAX_TEXT);
                              w == Resolve(fs, root, Base(root, node, text), text, depth + 1, follow, allow))))
  {
    hide Resolve;
    FirstNonEmpty(p);
  }

  method MakeCopy(path: string) returns (copy: array<char>)
    requires NulFree(path)
    ensures fresh(copy) && Holds(copy, path)
  {
    copy := new char[|path| + 1];
    CopyString(copy, 0, path);
  }

  /** The names from an entry up to the root, and their total length. */
  function NamesUp(root: Dentry, d: Dentry): seq<string>
    requires Under(root, d)
  {
    if d == root then [] else [d.name] + NamesUp(root, d.parent)
  }

  /** The text of the last n names collected, outermost first. */
  function Joined(parts: seq<string>): string
  {
    if parts == [] then "" else Joined(parts[1..]) + "/" + parts[0]
  }

  lemma {:induction false} JoinedNames(root: Dentry, d: Dentry)
    requires Under(root, d)
    ensures Joined(NamesUp(root, d)) == Names(root, d)
  {
    if d != root {
      JoinedNames(root, d.parent);
      assert NamesUp(root, d)[1..] == NamesUp(root, d.parent);
    }
  }

  lemma {:induction false} JoinedOne(parts: seq<string>, i: nat)
    requires i < |parts|
    ensures Joined(parts[i..]) == Joined(parts[i + 1..]) + "/" + parts[i]
  {
    assert parts[i..][1..] == parts[i + 1..];
  }

  function TotalLength(parts: seq<string>): nat
  {
    if parts == [] then 0 else |parts[0]| + TotalLength(parts[1..])
  }

  lemma {:induction false} JoinedLength(parts: seq<string>)
    ensures |Joined(parts)| == |parts| + TotalLength(parts)
  {
    if parts != [] {
      JoinedLength(parts[1..]);
    }
  }

  lemma {:induction false} TotalAppend(parts: seq<string>, name: string)
    ensures TotalLength(parts + [name]) == TotalLength(parts) + |name|
  {
    if parts != [] {
      TotalAppend(parts[1..], name);
      assert (parts + [name])[1..] == parts[1..] + [name];
    }
  }

  lemma {:induction false} JoinedTail(parts: seq<string>, i: nat)
    requires i <= |parts|
    ensures |Joined(parts[i..])| <= |Joined(parts)|
  {
    if i > 0 {
      JoinedTail(parts, i - 1);
      JoinedOne(parts, i - 1);
    } else {
      assert parts[0..] == parts;
    }
  }

  lemma {:induction false} NamesPeeled(root: Dentry, d: Dentry, parts: seq<string>)
    requires Under(root, d) && d != root
    ensures parts + NamesUp(root, d) == parts + [d.name] + NamesUp(root, d.parent)
    ensures TotalLength(parts + [d.name]) == TotalLength(parts) + |d.name|
  {
    TotalAppend(parts, d.name);
  }

  method CollectNames(root: Dentry, current: Dentry) returns (parts: seq<string>, total: nat)
    requires Under(root, current)
    ensures parts == NamesUp(root, current) && total == TotalLength(parts)
  {
    parts, total := [], 0;
    var d := current;
    while d != root
      invariant Under(root, d) && parts + NamesUp(root, d) == NamesUp(root, current) && total == TotalLength(parts)
      decreases d
    {
      NamesPeeled(root, d, parts);
      total := total + |d.name|;
      parts := parts + [d.name];
      d := d.parent;
    }
  }

  /** Spell the absolute path of an entry into a buffer, exactly when the path and its terminator fit. */
  method BuildAbsolute(root: Dentry, current: Dentry, buff: array<char>, size: nat) returns (ok: bool)
    requires Under(root, current) && size <= buff.Length
    modifies buff
    ensures var path := AbsolutePath(root, current);
            && (ok <==> |path| + 1 <= size)
            && (ok ==> buff[..] == path + [NUL] + old(buff[|path| + 1..]))
            && (!ok ==> buff[..] == old(buff[..]))
  {
    var parts, total := CollectNames(root, current);
    JoinedNames(root, current);
    JoinedLength(parts);
    var separators := if |parts| == 0 then 1 else |parts|;
    if separators + total + 1 > size {
      return false;
    }
    if |parts| == 0 {
      buff[0], buff[1] := '/', NUL;
      assert buff[..] == "/" + [NUL] + old(buff[2..]);
      return true;
    }
    FillNames(parts, buff);
    return true;
  }

  /** Append a slash and a name at a place. */
  method PutName(buff: array<char>, at: nat, name: string)
    requires at + 1 + |name| < buff.Length
    modifies buff
    ensures buff[..] == old(buff[..at]) + "/" + name + [NUL] + old(buff[at + 1 + |name| + 1..])
  {
    buff[at] := '/';
    assert buff[..at + 1] == old(buff[..at]) + "/";
    assert buff[at + 1 + |name| + 1..] == old(buff[at + 1 + |name| + 1..]);
    CopyString(buff, at + 1, name);
  }

  /** The outermost names from index i on are spelled, and the rest of the buffer is as it was. */
  ghost predicate Filled(now: seq<char>, was: seq<char>, parts: seq<string>, i: nat)
    requires i <= |parts|
  {
    var text := Joined(parts[i..]);
    |text| < |was| && now == if i == |parts| then was else text + [NUL] + was[|text| + 1..]
  }

  lemma {:induction false} FillNext(was: seq<char>, before: seq<char>, after: seq<char>, parts: seq<string>, i: nat)
    requires i < |parts| && Filled(before, was, parts, i + 1) && |Joined(parts[i..])| < |was|
    requires |Joined(parts[i..])| == |Joined(parts[i + 1..])| + 1 + |parts[i]| && |before| == |was|
    requires var at := |Joined(parts[i + 1..])|;
             after == before[..at] + "/" + parts[i] + [NUL] + before[at + 1 + |parts[i]| + 1..]
    ensures Filled(after, was, parts, i)
  {
    JoinedOne(parts, i);
    hide Joined;
    var done := Joined(parts[i + 1..]);
    var end := |done| + 1 + |parts[i]| + 1;
    if i + 1 == |parts| {
      NoneJoined(parts);
      assert before[..|done|] == done;
    } else {
      assert before[..|done|] == done;
      assert before[end..] == was[end..];
    }
  }

  lemma {:induction false} NoneJoined(parts: seq<string>)
    ensures Joined(parts[|parts|..]) == ""
  {
  }

  method FillNames(parts: seq<string>, buff: array<char>)
    requires parts != [] && |Joined(parts)| < buff.Length
    modifies buff
    ensures var path := Joined(parts);
            buff[..] == path + [NUL] + old(buff[|path| + 1..])
  {
    hide Joined;
    var index, i := 0, |parts|;
    NoneJoined(parts);
    while i > 0
      invariant 0 <= i <= |parts| && index == |Joined(parts[i..])| && Filled(buff[..], old(buff[..]), parts, i)
    {
      i := i - 1;
      JoinedOne(parts, i);
      JoinedTail(parts, i);
      ghost var before := buff[..];
      PutName(buff, index, parts[i]);
      FillNext(old(buff[..]), before, buff[..], parts, i);
      index := index + 1 + |parts[i]|;
    }
    assert parts[0..] == parts;
    assert old(buff[..])[index + 1..] == old(buff[index + 1..]);
  }

  /** The root and the working directory of a task, over a tree that does not change. */
  class WorkingDirectory {
    const fs: Fs
    const root: Dentry
    var current: Dentry

    ghost predicate Valid()
      reads this
    {
      NulFreeFs(fs) && ShortNames(fs) && Genuine(fs, root, current)
    }

    /** A process starts in a directory under its root. */
    constructor (tree: Fs, top: Dentry, start: Dentry)
      requires NulFreeFs(tree) && ShortNames(tree) && Genuine(tree, top, start)
      ensures Valid() && fs == tree && root == top && current == start
    {
      fs, root, current := tree, top, start;
    }

    /** Move to what the path resolves to; a path that does not resolve leaves the working directory as it is. */
    method Chdir(path: string) returns (ok: bool)
      requires Valid() && NulFree(path)
      modifies this`current
      ensures Valid() && current == ChdirStep(fs, root, old(current), path)
      ensures ok <==> Resolve(fs, root, old(current), path, 0, true, false).Found?
    {
      ResolveGenuine(fs, root, current, path, 0, false);
      var o := ResolvePath(fs, root, current, path, 0, true, false);
      ok := o.Found?;
      if ok {
        current := o.node;
      }
    }

    /** The text delivered resolves back to the working directory, from wherever it is resolved. */
    method Getcwd(buff: array<char>, size: nat) returns (ok: bool)
      requires Valid() && size <= buff.Length
      modifies buff
      ensures Under(root, current)
      ensures var path := AbsolutePath(root, current);
              && (ok <==> |path| + 1 <= size)
              && (ok ==> buff[..] == path + [NUL] + old(buff[|path| + 1..]))
              && (!ok ==> buff[..] == old(buff[..]))
              && forall start :: Resolve(fs, root, start, path, 0, true, false) == Found(current)
    {
      GenuineUnder(fs, root, current);
      forall start ensures Resolve(fs, root, start, AbsolutePath(root, current), 0, true, false) == Found(current) {
        AbsolutePathResolves(fs, root, start, current);
      }
      ok := BuildAbsolute(root, current, buff, size);
    }
  }
}
