/**
 * Path resolution (kernel/kernel/vfs/path.c:27-173): symbolic links are followed by splicing their target in front
 * of the rest of the text and starting again. It is compared here with structural resolution, which resolves the
 * target first and then the remaining components, with one counter of followed links.
 */
module PathResolve {
  import opened PathText

  const MAX_LINKS: nat := 40
  const MAX_TEXT: nat := 4095
  const MAX_NAME: nat := 255

  datatype Option<T> = None | Some(value: T)

  /** A filesystem object. An unreadable link is one whose target cannot be fetched. */
  datatype Inode = Directory(entries: map<string, nat>) | Link(target: string) | UnreadableLink | Other

  /** What the filesystem callbacks answer, for every object. */
  type Fs = map<nat, Inode>

  /** A directory entry: a name under a parent, or the top of a tree. */
  datatype Dentry = Top(name: string, inode: nat) | Child(name: string, parent: Dentry, inode: nat)

  /** A found entry, a missing last entry with the directory it is missing from, or nothing. */
  datatype Outcome = Found(node: Dentry) | Missing(dir: Dentry, name: string) | Failed

  function Clip(s: string, n: nat): (r: string)
  {
    if |s| <= n then s else s[..n]
  }

  function Object(fs: Fs, i: nat): Inode
  {
    if i in fs then fs[i] else Other
  }

  /** Look a name up in a directory. The new entry keeps the name's first 255 characters. */
  function Find(fs: Fs, d: Dentry, name: string): Option<Dentry>
  {
    match Object(fs, d.inode)
    case Directory(entries) =>
      if name in entries then Some(Child(Clip(name, MAX_NAME), d, entries[name])) else None
    case _ => None
  }

  /** One step up, never above the root; a tree that ends elsewhere is clamped to the root. */
  function Up(root: Dentry, d: Dentry): Dentry
  {
    if d == root || d.Top? then root else d.parent
  }

  predicate IsLink(fs: Fs, d: Dentry)
  {
    Object(fs, d.inode).Link? || Object(fs, d.inode).UnreadableLink?
  }

  /** Where a text starts. */
  function Base(root: Dentry, d: Dentry, text: string): Dentry
  {
    if text != "" && text[0] == '/' then root else d
  }

  function Resolve(fs: Fs, root: Dentry, start: Dentry, path: string, depth: nat, follow: bool, allow: bool): Outcome
    decreases MAX_LINKS - depth, 1, 0
  {
    if depth >= MAX_LINKS then Failed
    else if path == "" then Found(start)
    else Walk(fs, root, Base(root, start, path), path, depth, follow, allow)
  }

  /** Resolve the rest of a text from a node. */
  function Walk(fs: Fs, root: Dentry, node: Dentry, rest: string, depth: nat, follow: bool, allow: bool): Outcome
    requires depth < MAX_LINKS
    decreases MAX_LINKS - depth, 0, |rest|
  {
    Skipped(rest);
    var p := SkipSlashes(rest);
    if p == "" then Found(node)
    else
      FirstNonEmpty(p);
      var c, q := First(p), p[|First(p)|..];
      if c == "." then Walk(fs, root, node, q, depth, follow, allow)
      else if c == ".." then Walk(fs, root, Up(root, node), q, depth, follow, allow)
      else match Find(fs, node, c)
        case None => if allow && SkipSlashes(q) == "" then Missing(node, c) else Failed
        case Some(child) =>
          if IsLink(fs, child) && (follow || q != "") then
            match Object(fs, child.inode)
            case Link(target) =>
              var text := Clip(Clip(target, MAX_TEXT) + q, MAX_TEXT);
              Resolve(fs, root, Base(root, node, text), text, depth + 1, follow, allow)
            case _ => Failed
          else Walk(fs, root, child, q, depth, follow, allow)
  }

  /** The first named component of a text. */
  lemma {:induction false} WalkOne(fs: Fs, root: Dentry, node: Dentry, rest: string, c: string, q: string, depth: nat,
                                   follow: bool, allow: bool)
    requires depth < MAX_LINKS && c != "" && c != "." && c != ".." && '/' !in c && (q == "" || q[0] == '/')
    requires rest == c + q || rest == "/" + c + q
    ensures var found := Find(fs, node, c);
            var w := Walk(fs, root, node, rest, depth, follow, allow);
            && (found.None? && !allow ==> w == Failed)
            && (found.Some? && !IsLink(fs, found.value) ==> w == Walk(fs, root, found.value, q, depth, follow, allow))
            && (found.Some? && Object(fs, found.value.inode).Link? && (follow || q != "") ==>
                  var text := Clip(Clip(Object(fs, found.value.inode).target, MAX_TEXT) + q, MAX_TEXT);
                  w == Resolve(fs, root, Base(root, node, text), text, depth + 1, follow, allow))
  {
    SlashFirst(c, q);
    Skipped(rest);
  }

  // ---------- confinement ----------

  /** d is the root or lies below it. */
  predicate Under(root: Dentry, d: Dentry)
  {
    d == root || (d.Child? && Under(root, d.parent))
  }

  /** The node an outcome names. */
  ghost predicate OutcomeUnder(root: Dentry, o: Outcome)
  {
    match o
    case Found(d) => Under(root, d)
    case Missing(d, _) => Under(root, d)
    case Failed => true
  }

  /** Whatever the path and the links say, resolution stays under the root. */
  lemma {:induction false} Confined(fs: Fs, root: Dentry, start: Dentry, path: string, depth: nat, follow: bool,
                                    allow: bool)
    requires Under(root, start)
    ensures OutcomeUnder(root, Resolve(fs, root, start, path, depth, follow, allow))
    decreases MAX_LINKS - depth, 1, 0
  {
    if depth < MAX_LINKS && path != "" {
      WalkConfined(fs, root, Base(root, start, path), path, depth, follow, allow);
    }
  }

  lemma {:induction false} WalkConfined(fs: Fs, root: Dentry, node: Dentry, rest: string, depth: nat, follow: bool,
                                        allow: bool)
    requires depth < MAX_LINKS && Under(root, node)
    ensures OutcomeUnder(root, Walk(fs, root, node, rest, depth, follow, allow))
    decreases MAX_LINKS - depth, 0, |rest|
  {
    Skipped(rest);
    var p := SkipSlashes(rest);
    if p != "" {
      FirstNonEmpty(p);
      var c, q := First(p), p[|First(p)|..];
      if c == "." {
        WalkConfined(fs, root, node, q, depth, follow, allow);
      } else if c == ".." {
        WalkConfined(fs, root, Up(root, node), q, depth, follow, allow);
      } else if Find(fs, node, c).Some? {
        var child := Find(fs, node, c).value;
        if IsLink(fs, child) && (follow || q != "") {
          if Object(fs, child.inode).Link? {
            var text := Clip(Clip(Object(fs, child.inode).target, MAX_TEXT) + q, MAX_TEXT);
            Confined(fs, root, Base(root, node, text), text, depth + 1, follow, allow);
          }
        } else {
          WalkConfined(fs, root, child, q, depth, follow, allow);
        }
      }
    }
  }

  // ---------- structural resolution ----------

  /** Where structural resolution arrives, and how many links it has followed by then. */
  datatype Arrival = Arrived(node: Dentry, links: nat) | Lost

  /** Resolve components one after the other; a link is replaced by the node its own target resolves to. */
  function Structural(fs: Fs, root: Dentry, node: Dentry, cs: seq<string>, links: nat): (r: Arrival)
    requires links < MAX_LINKS
    ensures r.Arrived? ==> links <= r.links < MAX_LINKS
    decreases MAX_LINKS - links, |cs|
  {
    if cs == [] then Arrived(node, links)
    else if cs[0] == "." then Structural(fs, root, node, cs[1..], links)
    else if cs[0] == ".." then Structural(fs, root, Up(root, node), cs[1..], links)
    else match Find(fs, node, cs[0])
      case None => Lost
      case Some(child) =>
        match Object(fs, child.inode)
        case Link(target) =>
          if links + 1 >= MAX_LINKS then Lost
          else
            var there := Structural(fs, root, Base(root, node, target), Components(target), links + 1);
            if there.Lost? then Lost else Structural(fs, root, there.node, cs[1..], there.links)
        case UnreadableLink => Lost
        case _ => Structural(fs, root, child, cs[1..], links)
  }

  /** Components in two parts are resolved one part after the other. */
  lemma {:induction false} StructuralAppend(fs: Fs, root: Dentry, node: Dentry, a: seq<string>, b: seq<string>,
                                            links: nat)
    requires links < MAX_LINKS
    ensures var there := Structural(fs, root, node, a, links);
            Structural(fs, root, node, a + b, links) ==
            if there.Lost? then Lost else Structural(fs, root, there.node, b, there.links)
    decreases MAX_LINKS - links, |a|
  {
    if a == [] {
      assert a + b == b;
    } else {
      assert (a + b)[1..] == a[1..] + b;
      if a[0] == "." {
        StructuralAppend(fs, root, node, a[1..], b, links);
      } else if a[0] == ".." {
        StructuralAppend(fs, root, Up(root, node), a[1..], b, links);
      } else if Find(fs, node, a[0]).Some? {
        AppendFound(fs, root, node, a, b, links);
      }
    }
  }

  lemma {:induction false} AppendFound(fs: Fs, root: Dentry, node: Dentry, a: seq<string>, b: seq<string>, links: nat)
    requires links < MAX_LINKS && a != [] && a[0] != "." && a[0] != ".." && Find(fs, node, a[0]).Some?
    ensures var there := Structural(fs, root, node, a, links);
            Structural(fs, root, node, a + b, links) ==
            if there.Lost? then Lost else Structural(fs, root, there.node, b, there.links)
    decreases MAX_LINKS - links, |a|, 0
  {
    assert (a + b)[1..] == a[1..] + b;
    var child := Find(fs, node, a[0]).value;
    match Object(fs, child.inode)
    case Link(target) =>
      if links + 1 < MAX_LINKS {
        var there := Structural(fs, root, Base(root, node, target), Components(target), links + 1);
        if there.Arrived? {
          StructuralAppend(fs, root, there.node, a[1..], b, there.links);
        }
      }
    case UnreadableLink =>
    case _ => StructuralAppend(fs, root, child, a[1..], b, links);
  }

  /** No splice on the way is cut short, and no empty target stands in front of more text. */
  ghost predicate CleanSplices(fs: Fs, root: Dentry, node: Dentry, rest: string, depth: nat)
    requires depth < MAX_LINKS
    decreases MAX_LINKS - depth, |rest|
  {
    Skipped(rest);
    var p := SkipSlashes(rest);
    if p == "" then true
    else
      FirstNonEmpty(p);
      var c, q := First(p), p[|First(p)|..];
      if c == "." then CleanSplices(fs, root, node, q, depth)
      else if c == ".." then CleanSplices(fs, root, Up(root, node), q, depth)
      else match Find(fs, node, c)
        case None => true
        case Some(child) =>
          match Object(fs, child.inode)
          case Link(target) =>
            && |target| + |q| <= MAX_TEXT && (target == "" ==> q == "")
            && (depth + 1 < MAX_LINKS ==> CleanSplices(fs, root, Base(root, node, target), target + q, depth + 1))
          case UnreadableLink => true
          case _ => CleanSplices(fs, root, child, q, depth)
  }

  ghost predicate ShortTargets(fs: Fs, n: nat)
  {
    forall i :: i in fs && fs[i].Link? ==> 0 < |fs[i].target| <= n
  }

  /** A bound on the text and on the targets that a caller can check makes every splice clean. */
  lemma {:induction false} ShortIsClean(fs: Fs, root: Dentry, node: Dentry, rest: string, depth: nat, n: nat)
    requires depth < MAX_LINKS && ShortTargets(fs, n) && |rest| + (MAX_LINKS - depth) * n <= MAX_TEXT
    ensures CleanSplices(fs, root, node, rest, depth)
    decreases MAX_LINKS - depth, |rest|
  {
    Skipped(rest);
    var p := SkipSlashes(rest);
    if p != "" {
      FirstNonEmpty(p);
      var c, q := First(p), p[|First(p)|..];
      if c == "." {
        ShortIsClean(fs, root, node, q, depth, n);
      } else if c == ".." {
        ShortIsClean(fs, root, Up(root, node), q, depth, n);
      } else if Find(fs, node, c).Some? {
        var child := Find(fs, node, c).value;
        if Object(fs, child.inode).Link? {
          var target := Object(fs, child.inode).target;
          assert (MAX_LINKS - depth) * n == (MAX_LINKS - (depth + 1)) * n + n;
          Nonneg(MAX_LINKS - (depth + 1), n);
          if depth + 1 < MAX_LINKS {
            ShortIsClean(fs, root, Base(root, node, target), target + q, depth + 1, n);
          }
        } else if !Object(fs, child.inode).UnreadableLink? {
          ShortIsClean(fs, root, child, q, depth, n);
        }
      }
    }
  }

  lemma {:induction false} Nonneg(a: nat, b: nat)
    ensures a * b >= 0
  {
  }

  function AsOutcome(a: Arrival): Outcome
  {
    if a.Arrived? then Found(a.node) else Failed
  }

  /** Following links by splicing text arrives exactly where structural resolution does. */
  lemma {:induction false} SpliceIsStructural(fs: Fs, root: Dentry, node: Dentry, rest: string, depth: nat)
    requires depth < MAX_LINKS && CleanSplices(fs, root, node, rest, depth)
    ensures Walk(fs, root, node, rest, depth, true, false) ==
            AsOutcome(Structural(fs, root, node, Components(rest), depth))
    decreases MAX_LINKS - depth, |rest|, 1
  {
    Skipped(rest);
    var p := SkipSlashes(rest);
    if p != "" {
      FirstNonEmpty(p);
      var c, q := First(p), p[|First(p)|..];
      Unfolded(rest);
      assert Components(rest)[1..] == Components(q);
      if c == "." {
        SpliceIsStructural(fs, root, node, q, depth);
      } else if c == ".." {
        SpliceIsStructural(fs, root, Up(root, node), q, depth);
      } else if Find(fs, node, c).Some? {
        SpliceFound(fs, root, node, rest, depth);
      }
    }
  }

  /** The component that comes next is a name that exists. */
  lemma {:induction false} SpliceFound(fs: Fs, root: Dentry, node: Dentry, rest: string, depth: nat)
    requires depth < MAX_LINKS && CleanSplices(fs, root, node, rest, depth) && SkipSlashes(rest) != ""
    requires var c := First(SkipSlashes(rest)); c != "." && c != ".." && Find(fs, node, c).Some?
    ensures Walk(fs, root, node, rest, depth, true, false) ==
            AsOutcome(Structural(fs, root, node, Components(rest), depth))
    decreases MAX_LINKS - depth, |rest|, 0
  {
    Skipped(rest);
    var p := SkipSlashes(rest);
    FirstNonEmpty(p);
    var c, q := First(p), p[|First(p)|..];
    Unfolded(rest);
    assert Components(rest)[1..] == Components(q);
    var child := Find(fs, node, c).value;
    match Object(fs, child.inode)
    case Link(target) =>
      if depth + 1 < MAX_LINKS {
        SpliceIsStructural(fs, root, Base(root, node, target), target + q, depth + 1);
      }
      SplicedLink(fs, root, node, target, q, depth);
    case UnreadableLink =>
    case _ => SpliceIsStructural(fs, root, child, q, depth);
  }

  /** One splice: the target, then the rest. */
  lemma {:induction false} SplicedLink(fs: Fs, root: Dentry, node: Dentry, target: string, q: string, depth: nat)
    requires depth < MAX_LINKS && |target| + |q| <= MAX_TEXT && (target == "" ==> q == "") && (q == "" || q[0] == '/')
    requires depth + 1 < MAX_LINKS ==>
               Walk(fs, root, Base(root, node, target), target + q, depth + 1, true, false) ==
               AsOutcome(Structural(fs, root, Base(root, node, target), Components(target + q), depth + 1))
    ensures var text := Clip(Clip(target, MAX_TEXT) + q, MAX_TEXT);
            Resolve(fs, root, Base(root, node, text), text, depth + 1, true, false) ==
            if depth + 1 >= MAX_LINKS then Failed
            else
              var there := Structural(fs, root, Base(root, node, target), Components(target), depth + 1);
              if there.Lost? then Failed else AsOutcome(Structural(fs, root, there.node, Components(q), there.links))
  {
    hide Walk, Structural, Components, Clip, Base;
    var base := Base(root, node, target);
    SplicedText(root, node, target, q);
    ResolveSome(fs, root, base, target + q, depth + 1);
    if depth + 1 < MAX_LINKS {
      SplicedComponents(target, q);
      StructuralAppend(fs, root, base, Components(target), Components(q), depth + 1);
    }
  }

  lemma {:induction false} SplicedText(root: Dentry, node: Dentry, target: string, q: string)
    requires |target| + |q| <= MAX_TEXT && (target == "" ==> q == "")
    ensures Clip(Clip(target, MAX_TEXT) + q, MAX_TEXT) == target + q
    ensures var base := Base(root, node, target);
            Base(root, node, target + q) == base == Base(root, base, target + q)
  {
    assert Clip(Clip(target, MAX_TEXT) + q, MAX_TEXT) == target + q;
  }

  lemma {:induction false} ResolveSome(fs: Fs, root: Dentry, base: Dentry, text: string, depth: nat)
    requires Base(root, base, text) == base
    ensures Resolve(fs, root, base, text, depth, true, false) ==
            if depth >= MAX_LINKS then Failed else Walk(fs, root, base, text, depth, true, false)
  {
    if depth < MAX_LINKS && text == "" {
      assert SkipSlashes("") == "";
    }
  }

  /** An empty target in front of more text: the text then starts with the slash that followed the link, and
      resolution restarts at the root. */
  lemma {:induction false} EmptyTargetRestarts(fs: Fs, root: Dentry, node: Dentry, q: string, depth: nat)
    requires depth + 1 < MAX_LINKS && q != "" && q[0] == '/' && |q| <= MAX_TEXT
    ensures var text := Clip(Clip("", MAX_TEXT) + q, MAX_TEXT);
            Resolve(fs, root, Base(root, node, text), text, depth + 1, true, false) ==
            Walk(fs, root, root, q, depth + 1, true, false)
  {
    assert "" + q == q;
  }

  /** A link with an empty target in front of more text q is resolved as structure says exactly when q leads from the
      root where it leads from the directory of the link. */
  lemma {:induction false} EmptyTargetIff(fs: Fs, root: Dentry, node: Dentry, c: string, q: string, depth: nat)
    requires depth + 1 < MAX_LINKS && q != "" && q[0] == '/' && |q| <= MAX_TEXT
    requires c != "" && c != "." && c != ".." && '/' !in c
    requires Find(fs, node, c).Some? && Object(fs, Find(fs, node, c).value.inode) == Link("")
    requires CleanSplices(fs, root, root, q, depth + 1)
    ensures Walk(fs, root, node, c + q, depth, true, false) ==
            AsOutcome(Structural(fs, root, node, [c] + Components(q), depth)) <==>
            AsOutcome(Structural(fs, root, root, Components(q), depth + 1)) ==
            AsOutcome(Structural(fs, root, node, Components(q), depth + 1))
  {
    EmptyTargetStructure(fs, root, node, c, Components(q), depth);
    hide Walk, Structural, Components, CleanSplices, Resolve;
    WalkOne(fs, root, node, c + q, c, q, depth, true, false);
    EmptyTargetRestarts(fs, root, node, q, depth);
    SpliceIsStructural(fs, root, root, q, depth + 1);
  }

  lemma {:induction false} EmptyTargetStructure(fs: Fs, root: Dentry, node: Dentry, c: string, cs: seq<string>,
                                                depth: nat)
    requires depth + 1 < MAX_LINKS && c != "." && c != ".."
    requires Find(fs, node, c).Some? && Object(fs, Find(fs, node, c).value.inode) == Link("")
    ensures Structural(fs, root, node, [c] + cs, depth) == Structural(fs, root, node, cs, depth + 1)
  {
    assert Components("") == [];
    assert ([c] + cs)[1..] == cs;
    assert Structural(fs, root, Base(root, node, ""), [], depth + 1) == Arrived(node, depth + 1);
  }

  /** A directory d with a file x and a link e whose target is empty: d/e/x is d/x structurally, and is not found. */
  lemma {:induction false} EmptyTargetAstray()
    ensures var fs: Fs := map[0 := Directory(map["d" := 1]), 1 := Directory(map["e" := 2, "x" := 3]), 2 := Link("")];
            var root := Top("", 0);
            && Structural(fs, root, root, ["d", "e", "x"], 0).Arrived?
            && Walk(fs, root, root, "d/e/x", 0, true, false) == Failed
  {
    var fs: Fs := map[0 := Directory(map["d" := 1]), 1 := Directory(map["e" := 2, "x" := 3]), 2 := Link("")];
    var root := Top("", 0);
    var d := Child("d", root, 1);
    assert Find(fs, root, "d") == Some(d);
    assert Find(fs, d, "e") == Some(Child("e", d, 2));
    assert Find(fs, d, "x") == Some(Child("x", d, 3));
    AstrayStructural(fs, root, d);
    AstraySpliced(fs, root, d);
  }

  lemma {:induction false} AstrayStructural(fs: Fs, root: Dentry, d: Dentry)
    requires Find(fs, root, "d") == Some(d) && Object(fs, d.inode).Directory?
    requires Find(fs, d, "e").Some? && Object(fs, Find(fs, d, "e").value.inode) == Link("")
    requires Find(fs, d, "x").Some? && !IsLink(fs, Find(fs, d, "x").value)
    ensures Structural(fs, root, root, ["d", "e", "x"], 0) == Arrived(Find(fs, d, "x").value, 1)
  {
    assert ["d", "e", "x"][1..] == ["e", "x"] && ["e", "x"][1..] == ["x"] && ["x"][1..] == [];
    var x := Find(fs, d, "x").value;
    assert Structural(fs, root, x, [], 1) == Arrived(x, 1);
    assert Structural(fs, root, d, ["x"], 1) == Structural(fs, root, x, [], 1);
    assert Components("") == [];
    assert Structural(fs, root, d, ["e", "x"], 0) == Structural(fs, root, d, ["x"], 1);
  }

  lemma {:induction false} AstraySpliced(fs: Fs, root: Dentry, d: Dentry)
    requires Find(fs, root, "d") == Some(d) && Object(fs, d.inode).Directory?
    requires Find(fs, d, "e").Some? && Object(fs, Find(fs, d, "e").value.inode) == Link("")
    requires Find(fs, root, "x").None?
    ensures Walk(fs, root, root, "d/e/x", 0, true, false) == Failed
  {
    hide Walk, Resolve;
    WalkOne(fs, root, root, "d/e/x", "d", "/e/x", 0, true, false);
    WalkOne(fs, root, d, "/e/x", "e", "/x", 0, true, false);
    EmptyTargetRestarts(fs, root, d, "/x", 0);
    WalkOne(fs, root, root, "/x", "x", "", 1, true, false);
  }
}
