/**
 * Working directories and names: what chdir, getcwd and the creation of a missing last entry rely on
 * (kernel/kernel/vfs/path.c:175-234, kernel/kernel/task/syscall/chdir.c, kernel/kernel/task/syscall/getcwd.c).
 */
module PathRuns {
  import opened PathText
  import opened PathResolve

  /** A name that a path can spell and that an entry keeps whole. */
  predicate PlainName(name: string)
  {
    0 < |name| <= MAX_NAME && name != "." && name != ".." && '/' !in name
  }

  ghost predicate ShortNames(fs: Fs)
  {
    forall i :: i in fs && fs[i].Directory? ==> forall c :: c in fs[i].entries ==> |c| <= MAX_NAME
  }

  /** Every step from the root down to d is one the filesystem confirms, and none of them is a link. */
  ghost predicate Genuine(fs: Fs, root: Dentry, d: Dentry)
  {
    d == root ||
    (d.Child? && Genuine(fs, root, d.parent) && PlainName(d.name) && !IsLink(fs, d) &&
     Find(fs, d.parent, d.name) == Some(d))
  }

  lemma {:induction false} GenuineUnder(fs: Fs, root: Dentry, d: Dentry)
    requires Genuine(fs, root, d)
    ensures Under(root, d)
  {
    if d != root {
      GenuineUnder(fs, root, d.parent);
    }
  }

  ghost predicate OutcomeGenuine(fs: Fs, root: Dentry, o: Outcome)
  {
    match o
    case Found(d) => Genuine(fs, root, d)
    case Missing(d, _) => Genuine(fs, root, d)
    case Failed => true
  }

  /** Resolution from a genuine entry only reaches genuine entries. */
  lemma {:induction false} ResolveGenuine(fs: Fs, root: Dentry, start: Dentry, path: string, depth: nat, allow: bool)
    requires ShortNames(fs) && Genuine(fs, root, start)
    ensures OutcomeGenuine(fs, root, Resolve(fs, root, start, path, depth, true, allow))
    decreases MAX_LINKS - depth, 1, 0
  {
    if depth < MAX_LINKS && path != "" {
      WalkGenuine(fs, root, Base(root, start, path), path, depth, allow);
    }
  }

  lemma {:induction false} FoundGenuine(fs: Fs, root: Dentry, node: Dentry, c: string)
    requires ShortNames(fs) && Genuine(fs, root, node) && Find(fs, node, c).Some?
    requires !IsLink(fs, Find(fs, node, c).value)
    requires c != "" && c != "." && c != ".." && '/' !in c
    ensures Genuine(fs, root, Find(fs, node, c).value)
  {
    assert c in fs[node.inode].entries;
  }

  lemma {:induction false} WalkGenuine(fs: Fs, root: Dentry, node: Dentry, rest: string, depth: nat, allow: bool)
    requires depth < MAX_LINKS && ShortNames(fs) && Genuine(fs, root, node)
    ensures OutcomeGenuine(fs, root, Walk(fs, root, node, rest, depth, true, allow))
    decreases MAX_LINKS - depth, 0, |rest|
  {
    hide ShortNames, Find;
    Skipped(rest);
    var p := SkipSlashes(rest);
    if p != "" {
      FirstNonEmpty(p);
      var c, q := First(p), p[|First(p)|..];
      if c == "." {
        WalkGenuine(fs, root, node, q, depth, allow);
      } else if c == ".." {
        WalkGenuine(fs, root, Up(root, node), q, depth, allow);
      } else if Find(fs, node, c).Some? {
        var child := Find(fs, node, c).value;
        if IsLink(fs, child) {
          if Object(fs, child.inode).Link? {
            var text := Clip(Clip(Object(fs, child.inode).target, MAX_TEXT) + q, MAX_TEXT);
            ResolveGenuine(fs, root, Base(root, node, text), text, depth + 1, allow);
          }
        } else {
          FoundGenuine(fs, root, node, c);
          WalkGenuine(fs, root, child, q, depth, allow);
        }
      }
    }
  }

  // ---------- the text of an entry ----------

  /** The names from the root down to d, each after a slash. */
  function Names(root: Dentry, d: Dentry): string
    requires Under(root, d)
  {
    if d == root then "" else Names(root, d.parent) + "/" + d.name
  }

  /** The absolute path of d. */
  function AbsolutePath(root: Dentry, d: Dentry): string
    requires Under(root, d)
  {
    if d == root then "/" else Names(root, d)
  }

  /** Walking the names of a genuine entry leads to it. */
  lemma {:induction false} WalkNames(fs: Fs, root: Dentry, d: Dentry, q: string, allow: bool)
    requires Genuine(fs, root, d) && Under(root, d) && (q == "" || q[0] == '/')
    ensures Walk(fs, root, root, Names(root, d) + q, 0, true, allow) == Walk(fs, root, d, q, 0, true, allow)
    decreases d
  {
    if d == root {
      assert Names(root, d) + q == q;
    } else {
      var rest := "/" + d.name + q;
      assert Names(root, d) + q == Names(root, d.parent) + rest;
      WalkNames(fs, root, d.parent, rest, allow);
      WalkOne(fs, root, d.parent, rest, d.name, q, 0, true, allow);
    }
  }

  lemma {:induction false} NamesStart(root: Dentry, d: Dentry)
    requires Under(root, d) && d != root
    ensures Names(root, d) != "" && Names(root, d)[0] == '/'
  {
    if d.parent != root {
      NamesStart(root, d.parent);
    }
  }

  /** The absolute path of a genuine entry resolves back to the same chain of names and the same object. */
  lemma {:induction false} AbsolutePathResolves(fs: Fs, root: Dentry, start: Dentry, d: Dentry)
    requires Genuine(fs, root, d) && Under(root, d)
    ensures Resolve(fs, root, start, AbsolutePath(root, d), 0, true, false) == Found(d)
  {
    if d == root {
      assert "/"[1..] == "" && SkipSlashes("/") == SkipSlashes("");
    } else {
      NamesStart(root, d);
      WalkNames(fs, root, d, "", false);
      assert Names(root, d) + "" == Names(root, d);
    }
  }

  // ---------- runs of chdir ----------

  function ChdirStep(fs: Fs, root: Dentry, cwd: Dentry, path: string): Dentry
  {
    match Resolve(fs, root, cwd, path, 0, true, false)
    case Found(d) => d
    case _ => cwd
  }

  function ChdirRun(fs: Fs, root: Dentry, cwd: Dentry, paths: seq<string>): Dentry
    decreases |paths|
  {
    if paths == [] then cwd else ChdirRun(fs, root, ChdirStep(fs, root, cwd, paths[0]), paths[1..])
  }

  /** A run of calls is its calls one after the other, each from where the one before it left off. */
  lemma {:induction false} RunOneMore(fs: Fs, root: Dentry, cwd: Dentry, paths: seq<string>, path: string)
    ensures ChdirRun(fs, root, cwd, []) == cwd
    ensures var d := ChdirRun(fs, root, cwd, paths);
            var o := Resolve(fs, root, d, path, 0, true, false);
            ChdirRun(fs, root, cwd, paths + [path]) == if o.Found? then o.node else d
    decreases |paths|
  {
    hide Resolve;
    var all := paths + [path];
    if paths == [] {
      assert all[0] == path && all[1..] == [];
    } else {
      assert all[1..] == paths[1..] + [path];
      RunOneMore(fs, root, ChdirStep(fs, root, cwd, paths[0]), paths[1..], path);
    }
  }

  lemma {:induction false} RunGenuine(fs: Fs, root: Dentry, cwd: Dentry, paths: seq<string>)
    requires ShortNames(fs) && Genuine(fs, root, cwd)
    ensures Genuine(fs, root, ChdirRun(fs, root, cwd, paths))
    decreases |paths|
  {
    if paths != [] {
      ResolveGenuine(fs, root, cwd, paths[0], 0, false);
      RunGenuine(fs, root, ChdirStep(fs, root, cwd, paths[0]), paths[1..]);
    }
  }

  lemma {:induction false} RunConfined(fs: Fs, root: Dentry, cwd: Dentry, paths: seq<string>)
    requires Under(root, cwd)
    ensures Under(root, ChdirRun(fs, root, cwd, paths))
    decreases |paths|
  {
    if paths != [] {
      Confined(fs, root, cwd, paths[0], 0, true, false);
      RunConfined(fs, root, ChdirStep(fs, root, cwd, paths[0]), paths[1..]);
    }
  }

  /** After any sequence of chdir calls, the path that getcwd spells leads back to the working directory. */
  lemma {:induction false} GetcwdRoundTrip(fs: Fs, root: Dentry, cwd: Dentry, paths: seq<string>, start: Dentry)
    requires ShortNames(fs) && Genuine(fs, root, cwd)
    ensures var d := ChdirRun(fs, root, cwd, paths);
            Under(root, d) && Resolve(fs, root, start, AbsolutePath(root, d), 0, true, false) == Found(d)
  {
    RunGenuine(fs, root, cwd, paths);
    var d := ChdirRun(fs, root, cwd, paths);
    GenuineUnder(fs, root, d);
    AbsolutePathResolves(fs, root, start, d);
  }

  // ---------- a missing last entry ----------

  /** Allowing the last entry to be missing changes no other answer. */
  lemma {:induction false} OptionalAgrees(fs: Fs, root: Dentry, start: Dentry, path: string, depth: nat, follow: bool)
    ensures var o := Resolve(fs, root, start, path, depth, follow, true);
            Resolve(fs, root, start, path, depth, follow, false) == if o.Missing? then Failed else o
    decreases MAX_LINKS - depth, 1, 0
  {
    if depth < MAX_LINKS && path != "" {
      OptionalWalk(fs, root, Base(root, start, path), path, depth, follow);
    }
  }

  lemma {:induction false} OptionalWalk(fs: Fs, root: Dentry, node: Dentry, rest: string, depth: nat, follow: bool)
    requires depth < MAX_LINKS
    ensures var o := Walk(fs, root, node, rest, depth, follow, true);
            Walk(fs, root, node, rest, depth, follow, false) == if o.Missing? then Failed else o
    decreases MAX_LINKS - depth, 0, |rest|
  {
    Skipped(rest);
    var p := SkipSlashes(rest);
    if p != "" {
      FirstNonEmpty(p);
      var c, q := First(p), p[|First(p)|..];
      if c == "." {
        OptionalWalk(fs, root, node, q, depth, follow);
      } else if c == ".." {
        OptionalWalk(fs, root, Up(root, node), q, depth, follow);
      } else if Find(fs, node, c).Some? {
        var child := Find(fs, node, c).value;
        if IsLink(fs, child) && (follow || q != "") {
          if Object(fs, child.inode).Link? {
            var text := Clip(Clip(Object(fs, child.inode).target, MAX_TEXT) + q, MAX_TEXT);
            OptionalAgrees(fs, root, Base(root, node, text), text, depth + 1, follow);
          }
        } else {
          OptionalWalk(fs, root, child, q, depth, follow);
        }
      }
    }
  }

  /** The filesystem after the entry `name` for the object x is made in the directory i. */
  function WithEntry(fs: Fs, i: nat, name: string, x: nat): Fs
    requires Object(fs, i).Directory?
  {
    fs[i := Directory(fs[i].entries[name := x])]
  }

  /** fs2 is fs1 with one more entry, for an object that is not a link. */
  ghost predicate Extends(fs1: Fs, fs2: Fs, i: nat, name: string, x: nat)
  {
    Object(fs1, i).Directory? && name !in fs1[i].entries && fs2 == WithEntry(fs1, i, name, x) &&
    !Object(fs2, x).Link? && !Object(fs2, x).UnreadableLink?
  }

  /** A successful lookup is not disturbed by a new entry. */
  lemma {:induction false} LookupKept(fs1: Fs, fs2: Fs, i: nat, name: string, x: nat, node: Dentry, c: string)
    requires Extends(fs1, fs2, i, name, x)
    ensures Find(fs1, node, c).Some? ==> Find(fs2, node, c) == Find(fs1, node, c)
    ensures IsLink(fs2, node) == IsLink(fs1, node)
    ensures Object(fs1, node.inode).Link? ==> Object(fs2, node.inode) == Object(fs1, node.inode)
    ensures node.inode == i ==> Find(fs2, node, name) == Some(Child(Clip(name, MAX_NAME), node, x))
  {
  }

  /** When resolution reports a missing last entry and that entry is then made in the directory it named, the same
      path finds it. */
  lemma {:induction false} CreateThenResolve(fs1: Fs, fs2: Fs, root: Dentry, start: Dentry, path: string, depth: nat,
                                             follow: bool,
                                             d: Dentry, name: string, x: nat)
    requires Resolve(fs1, root, start, path, depth, follow, true) == Missing(d, name)
    requires Extends(fs1, fs2, d.inode, name, x)
    ensures Resolve(fs2, root, start, path, depth, follow, false) == Found(Child(Clip(name, MAX_NAME), d, x))
    decreases MAX_LINKS - depth, 1, 0
  {
    CreateThenWalk(fs1, fs2, root, Base(root, start, path), path, depth, follow, d, name, x);
  }

  lemma {:induction false} CreateThenWalk(fs1: Fs, fs2: Fs, root: Dentry, node: Dentry, rest: string, depth: nat,
                                          follow: bool,
                                          d: Dentry, name: string, x: nat)
    requires depth < MAX_LINKS
    requires Walk(fs1, root, node, rest, depth, follow, true) == Missing(d, name)
    requires Extends(fs1, fs2, d.inode, name, x)
    ensures Walk(fs2, root, node, rest, depth, follow, false) == Found(Child(Clip(name, MAX_NAME), d, x))
    decreases MAX_LINKS - depth, 0, |rest|
  {
    hide Extends, Find, IsLink;
    Skipped(rest);
    var p := SkipSlashes(rest);
    FirstNonEmpty(p);
    var c, q := First(p), p[|First(p)|..];
    LookupKept(fs1, fs2, d.inode, name, x, node, c);
    if c == "." {
      CreateThenWalk(fs1, fs2, root, node, q, depth, follow, d, name, x);
    } else if c == ".." {
      CreateThenWalk(fs1, fs2, root, Up(root, node), q, depth, follow, d, name, x);
    } else if Find(fs1, node, c).Some? {
      var child := Find(fs1, node, c).value;
      LookupKept(fs1, fs2, d.inode, name, x, child, c);
      if IsLink(fs1, child) && (follow || q != "") {
        var text := Clip(Clip(Object(fs1, child.inode).target, MAX_TEXT) + q, MAX_TEXT);
        CreateThenResolve(fs1, fs2, root, Base(root, node, text), text, depth + 1, follow, d, name, x);
      } else {
        CreateThenWalk(fs1, fs2, root, child, q, depth, follow, d, name, x);
      }
    } else {
      NewEntryFound(fs1, fs2, root, node, q, depth, follow, name, x);
    }
  }

  lemma {:induction false} NewEntryFound(fs1: Fs, fs2: Fs, root: Dentry, node: Dentry, q: string, depth: nat,
                                         follow: bool,
                                         name: string, x: nat)
    requires depth < MAX_LINKS && SkipSlashes(q) == "" && Extends(fs1, fs2, node.inode, name, x)
    ensures Find(fs2, node, name) == Some(Child(Clip(name, MAX_NAME), node, x))
    ensures !IsLink(fs2, Child(Clip(name, MAX_NAME), node, x))
    ensures var child := Child(Clip(name, MAX_NAME), node, x);
            Walk(fs2, root, child, q, depth, follow, false) == Found(child)
  {
  }
}
