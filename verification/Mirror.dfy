/** Filtered history: `derive` (crates/nas-cli/src/mirror.rs:617-705). */
module Mirror {
  import opened Wrappers
  import opened Bytes
  import opened GitPaths
  import Glob

  type Sha = Bytes
  type Path = Bytes

  /** A file of a tree: its mode, its blob and its path. */
  datatype Entry = Entry(mode: Bytes, oid: Bytes, path: Path)

  /** A private commit, with the files of its tree under their real paths; `who` is both identities and dates. */
  datatype Commit = Commit(parents: seq<Sha>, files: seq<Entry>, who: Bytes, message: Bytes)

  type Repo = map<Sha, Commit>

  type Tree = map<Path, (Bytes, Bytes)>

  /** A public commit. Git names it by its content, so it is its content. */
  datatype Public = Public(tree: Tree, parents: seq<Public>, who: Bytes, message: Bytes)

  /** Rules, with the message filter they induce. */
  datatype Rules = Rules(excludes: seq<Bytes>, dropEmpty: bool, filterMessages: bool, filter: Bytes -> Bytes)

  /** `ls_tree`: the files as git lists them, each path as it is printed. */
  function Listing(files: seq<Entry>): (listing: seq<Entry>)
    ensures |listing| == |files|
    ensures forall i | 0 <= i < |files| :: listing[i] == files[i].(path := Printed(files[i].path))
  {
    seq(|files|, i requires 0 <= i < |files| => files[i].(path := Printed(files[i].path)))
  }

  function Kept(files: seq<Entry>, rules: Rules): seq<Entry> {
    if files == [] then [] else
      var n := |files| - 1;
      if Glob.Excluded(files[n].path, rules.excludes) then Kept(files[..n], rules)
      else Kept(files[..n], rules) + [files[n]]
  }

  /** `write_tree`: an index filled entry by entry. */
  function WriteTree(files: seq<Entry>): Tree {
    if files == [] then map[] else
      var n := |files| - 1;
      WriteTree(files[..n])[files[n].path := (files[n].mode, files[n].oid)]
  }

  function Lookup(m: map<Sha, Public>, c: Sha): Option<Public> {
    if c in m then Some(m[c]) else None
  }

  /** The images of the parents that have one, in order. */
  function PublicParents(m: map<Sha, Public>, parents: seq<Sha>): seq<Public> {
    if parents == [] then [] else
      var n := |parents| - 1;
      if parents[n] in m then PublicParents(m, parents[..n]) + [m[parents[n]]] else PublicParents(m, parents[..n])
  }

  /** The files of a commit that the rules let through, as `derive` sees them. */
  function Shown(c: Commit, rules: Rules): seq<Entry> {
    Kept(Listing(c.files), rules)
  }

  /** `git commit-tree` ignores a parent it has been given before. */
  function Distinct(ps: seq<Public>): (r: seq<Public>)
    ensures forall q :: q in r <==> q in ps
    ensures (r == [] <==> ps == []) && (ps != [] ==> r[0] == ps[0])
  {
    if ps == [] then [] else
      var n := |ps| - 1;
      var rest := Distinct(ps[..n]);
      assert forall q :: q in ps <==> q in ps[..n] || q == ps[n];
      if ps[n] in rest then rest else rest + [ps[n]]
  }

  /** Nothing new to publish: an empty root, or the tree of the first public parent again. */
  predicate Empty(c: Commit, rules: Rules, ps: seq<Public>) {
    var kept := Shown(c, rules);
    && rules.dropEmpty
    && ((kept == [] && ps == []) || (ps != [] && ps[0].tree == WriteTree(kept)))
  }

  function Publish(c: Commit, rules: Rules, ps: seq<Public>): Public {
    Public(WriteTree(Shown(c, rules)), Distinct(ps), c.who, if rules.filterMessages then rules.filter(c.message) else c.message)
  }

  /** What a commit becomes, given what its parents became. */
  function Image(c: Commit, rules: Rules, m: map<Sha, Public>): Option<Public> {
    var ps := PublicParents(m, c.parents);
    if !Empty(c, rules, ps) then Some(Publish(c, rules, ps))
    else if ps != [] then Some(ps[0])
    else None
  }

  datatype Derived = Derived(shas: map<Sha, Public>, kept: nat, dropped: nat, head: Option<Public>, blobs: set<Bytes>)

  function Oids(files: seq<Entry>): set<Bytes> {
    set f | f in files :: f.oid
  }

  function Next(d: Derived, sha: Sha, c: Commit, rules: Rules): Derived {
    var image := Image(c, rules, d.shas);
    var dropped := Empty(c, rules, PublicParents(d.shas, c.parents));
    Derived(if image.Some? then d.shas[sha := image.value] else d.shas,
            if dropped then d.kept else d.kept + 1,
            if dropped then d.dropped + 1 else d.dropped,
            if image.Some? then image else d.head,
            d.blobs + Oids(Shown(c, rules)))
  }

  /** The rewrite of a listed history; every listed commit can be read. */
  function Rewrite(repo: Repo, listed: seq<Sha>, rules: Rules): Derived
    requires forall c | c in listed :: c in repo
  {
    if listed == [] then Derived(map[], 0, 0, None, {}) else
      var n := |listed| - 1;
      Next(Rewrite(repo, listed[..n], rules), listed[n], repo[listed[n]], rules)
  }

  /** A submodule: an entry that names a commit of another repository, not a blob. */
  predicate Gitlink(f: Entry) {
    f.mode == Ascii("160000")
  }

  /** `copy_blob` succeeds on every file shown. */
  predicate Copyable(c: Commit, rules: Rules) {
    forall f | f in Shown(c, rules) :: !Gitlink(f)
  }

  /** `derive` on a fresh map. A commit that cannot be read, or that shows a submodule, is an error. */
  method Derive(repo: Repo, listed: seq<Sha>, rules: Rules) returns (r: Option<Derived>)
    ensures r.Some? <==> forall c | c in listed :: c in repo && Copyable(repo[c], rules)
    ensures r.Some? ==> r.value == Rewrite(repo, listed, rules)
  {
    hide Next, Copyable;
    var d := Derived(map[], 0, 0, None, {});
    for i := 0 to |listed|
      invariant forall c | c in listed[..i] :: c in repo && Copyable(repo[c], rules)
      invariant d == Rewrite(repo, listed[..i], rules)
    {
      var sha := listed[i];
      assert listed[..i + 1] == listed[..i] + [sha] && listed[..i + 1][..i] == listed[..i];
      if sha !in repo { return None; }
      var copied := CopyBlobs(repo[sha], rules);
      if !copied { return None; }
      d := DeriveOne(d, sha, repo[sha], rules);
    }
    assert listed[..|listed|] == listed;
    return Some(d);
  }

  /** Copying what is shown, one blob after another. */
  method CopyBlobs(c: Commit, rules: Rules) returns (ok: bool)
    ensures ok == Copyable(c, rules)
  {
    var shown := FilterFiles(Listing(c.files), rules);
    for i := 0 to |shown|
      invariant forall j | 0 <= j < i :: !Gitlink(shown[j])
    {
      if Gitlink(shown[i]) { return false; }
    }
    return true;
  }

  /** One turn of the loop in `derive`. */
  method DeriveOne(before: Derived, sha: Sha, c: Commit, rules: Rules) returns (after: Derived)
    ensures after == Next(before, sha, c, rules)
  {
    var keptFiles := FilterFiles(Listing(c.files), rules);
    after := before.(blobs := before.blobs + Oids(keptFiles));
    var tree := WriteTree(keptFiles);
    var parents := PublicParents(before.shas, c.parents);
    if rules.dropEmpty {
      var emptyRoot := keptFiles == [] && parents == [];
      var emptyChild := parents != [] && parents[0].tree == tree;
      if emptyRoot || emptyChild {
        after := after.(dropped := after.dropped + 1);
        if parents != [] {
          after := after.(shas := after.shas[sha := parents[0]], head := Some(parents[0]));
        }
        return;
      }
    }
    var message := if rules.filterMessages then rules.filter(c.message) else c.message;
    var published := CommitTree(tree, parents, c.who, message);
    after := after.(shas := after.shas[sha := published], head := Some(published), kept := after.kept + 1);
  }

  /** `commit_tree`, which hands git every parent in turn. */
  method CommitTree(tree: Tree, parents: seq<Public>, who: Bytes, message: Bytes) returns (p: Public)
    ensures p == Public(tree, Distinct(parents), who, message)
  {
    var distinct: seq<Public> := [];
    for i := 0 to |parents|
      invariant distinct == Distinct(parents[..i])
    {
      assert parents[..i + 1][..i] == parents[..i];
      if parents[i] !in distinct { distinct := distinct + [parents[i]]; }
    }
    assert parents[..|parents|] == parents;
    return Public(tree, distinct, who, message);
  }

  method FilterFiles(files: seq<Entry>, rules: Rules) returns (kept: seq<Entry>)
    ensures kept == Kept(files, rules)
  {
    kept := [];
    for i := 0 to |files|
      invariant kept == Kept(files[..i], rules)
    {
      assert files[..i + 1][..i] == files[..i];
      var excluded := MatchesAny(files[i].path, rules.excludes);
      if !excluded { kept := kept + [files[i]]; }
    }
    assert files[..|files|] == files;
  }

  /** `excluded`. */
  method MatchesAny(path: Path, globs: seq<Bytes>) returns (r: bool)
    ensures r == Glob.Excluded(path, globs)
  {
    for i := 0 to |globs|
      invariant forall j | 0 <= j < i :: !Glob.GlobMatch(globs[j], path)
    {
      if Glob.GlobMatch(globs[i], path) { return true; }
    }
    return false;
  }

  // ---- Topological listings

  /** What `rev-list --reverse --topo-order` promises: no repeats, parents before children. */
  ghost predicate Topological(repo: Repo, listed: seq<Sha>) {
    && (forall c | c in listed :: c in repo)
    && (forall i, j | 0 <= i < j < |listed| :: listed[i] != listed[j])
    && (forall i, p | 0 <= i < |listed| && p in repo[listed[i]].parents && p in listed :: p in listed[..i])
  }

  lemma TopologicalPrefix(repo: Repo, listed: seq<Sha>)
    requires listed != [] && Topological(repo, listed)
    ensures Topological(repo, listed[..|listed| - 1])
  {
    var n := |listed| - 1;
    var t := listed[..n];
    forall i, p | 0 <= i < |t| && p in repo[t[i]].parents && p in t ensures p in t[..i] {
      assert t[..i] == listed[..i] && t[i] == listed[i] && p in listed;
    }
  }

  lemma {:induction false} SameParents(m: map<Sha, Public>, k: map<Sha, Public>, parents: seq<Sha>)
    requires forall p | p in parents :: Lookup(m, p) == Lookup(k, p)
    ensures PublicParents(m, parents) == PublicParents(k, parents)
  {
    if parents != [] {
      SameParents(m, k, parents[..|parents| - 1]);
      assert Lookup(m, parents[|parents| - 1]) == Lookup(k, parents[|parents| - 1]);
    }
  }

  /** Every commit's image is the one its parents' images give it, in the finished map. */
  ghost predicate Settled(repo: Repo, listed: seq<Sha>, rules: Rules, m: map<Sha, Public>) {
    && (forall c | c in m :: c in listed)
    && (forall c | c in listed :: c in repo && Lookup(m, c) == Image(repo[c], rules, m))
  }

  /** The map after one more commit. */
  lemma RewriteStep(repo: Repo, listed: seq<Sha>, rules: Rules)
    requires listed != [] && forall c | c in listed :: c in repo
    ensures var n := |listed| - 1;
            var before := Rewrite(repo, listed[..n], rules).shas;
            var image := Image(repo[listed[n]], rules, before);
            Rewrite(repo, listed, rules).shas == if image.Some? then before[listed[n] := image.value] else before
  {
    hide Image, Empty, Kept, PublicParents;
  }

  lemma SettledStep(repo: Repo, listed: seq<Sha>, rules: Rules, before: map<Sha, Public>, after: map<Sha, Public>, c: Sha)
    requires listed != [] && Topological(repo, listed) && c in listed
    requires Settled(repo, listed[..|listed| - 1], rules, before)
    requires var sha := listed[|listed| - 1];
             var image := Image(repo[sha], rules, before);
             after == if image.Some? then before[sha := image.value] else before
    ensures Lookup(after, c) == Image(repo[c], rules, after)
  {
    hide Empty, Publish, PublicParents;
    var n := |listed| - 1;
    var i :| 0 <= i < |listed| && listed[i] == c;
    assert forall p | p in repo[c].parents && p in listed :: p in listed[..i];
    SameParents(before, after, repo[c].parents);
    if i < n { assert listed[..n][i] == c; }
  }

  lemma {:induction false} RewriteSettles(repo: Repo, listed: seq<Sha>, rules: Rules)
    requires Topological(repo, listed)
    ensures Settled(repo, listed, rules, Rewrite(repo, listed, rules).shas)
  {
    hide Image, Next;
    if listed != [] {
      var n := |listed| - 1;
      TopologicalPrefix(repo, listed);
      RewriteSettles(repo, listed[..n], rules);
      RewriteStep(repo, listed, rules);
      forall c | c in listed
        ensures Lookup(Rewrite(repo, listed, rules).shas, c) == Image(repo[c], rules, Rewrite(repo, listed, rules).shas)
      {
        SettledStep(repo, listed, rules, Rewrite(repo, listed[..n], rules).shas, Rewrite(repo, listed, rules).shas, c);
      }
    }
  }

  lemma {:induction false} Agreement(repo: Repo, listed: seq<Sha>, m: map<Sha, Public>, repo': Repo, listed': seq<Sha>,
                                     m': map<Sha, Public>, rules: Rules, shared: set<Sha>, n: nat)
    requires Topological(repo, listed) && Settled(repo, listed, rules, m) && Settled(repo', listed', rules, m')
    requires SharedHistory(repo, listed, repo', listed', shared) && n <= |listed|
    ensures forall c | c in listed[..n] && c in shared :: Lookup(m, c) == Lookup(m', c)
  {
    if n > 0 {
      Agreement(repo, listed, m, repo', listed', m', rules, shared, n - 1);
      var c := listed[n - 1];
      assert listed[..n] == listed[..n - 1] + [c];
      if c in shared {
        forall p | p in repo[c].parents ensures Lookup(m, p) == Lookup(m', p) {
          if p in listed {
            assert p in listed[..n - 1] && p in shared;
          }
        }
        SameParents(m, m', repo[c].parents);
      }
    }
  }

  /** Commits in both listings with the same content, closed under listed parents. */
  ghost predicate SharedHistory(repo: Repo, listed: seq<Sha>, repo': Repo, listed': seq<Sha>, shared: set<Sha>) {
    && (forall c | c in shared :: c in listed && c in listed')
    && (forall c | c in shared :: c in repo && c in repo' && repo[c] == repo'[c])
    && (forall c, p | c in shared && p in repo[c].parents :: (p in listed <==> p in listed') && (p in listed ==> p in shared))
  }

  /**
   * The image of a commit depends on its ancestors and the rules alone: two histories,
   * listed in any topological order, map a shared closed part of them the same way.
   */
  lemma ImageOfAncestors(repo: Repo, listed: seq<Sha>, repo': Repo, listed': seq<Sha>, rules: Rules, shared: set<Sha>)
    requires Topological(repo, listed) && Topological(repo', listed')
    requires SharedHistory(repo, listed, repo', listed', shared)
    ensures forall c | c in shared ::
              Lookup(Rewrite(repo, listed, rules).shas, c) == Lookup(Rewrite(repo', listed', rules).shas, c)
  {
    RewriteSettles(repo, listed, rules);
    RewriteSettles(repo', listed', rules);
    Agreement(repo, listed, Rewrite(repo, listed, rules).shas, repo', listed', Rewrite(repo', listed', rules).shas,
              rules, shared, |listed|);
    assert listed[..|listed|] == listed;
  }

  /** One history, any topological order: the same map. */
  lemma OrderDoesNotMatter(repo: Repo, listed: seq<Sha>, listed': seq<Sha>, rules: Rules)
    requires Topological(repo, listed) && Topological(repo, listed')
    requires forall c :: c in listed <==> c in listed'
    ensures Rewrite(repo, listed, rules).shas == Rewrite(repo, listed', rules).shas
  {
    hide Rewrite, Image;
    var m, m' := Rewrite(repo, listed, rules).shas, Rewrite(repo, listed', rules).shas;
    ImageOfAncestors(repo, listed, repo, listed', rules, set c | c in listed);
    RewriteSettles(repo, listed, rules);
    RewriteSettles(repo, listed', rules);
    SameLookups(m, m');
  }

  lemma SameLookups(m: map<Sha, Public>, m': map<Sha, Public>)
    requires forall c | c in m || c in m' :: Lookup(m, c) == Lookup(m', c)
    ensures m == m'
  {
    forall c ensures c in m <==> c in m' {
      assert c in m || c in m' ==> Lookup(m, c) == Lookup(m', c);
    }
    forall c | c in m ensures m[c] == m'[c] { assert Lookup(m, c) == Lookup(m', c); }
  }

  /** Extending a complete history never moves an image that already exists. */
  lemma ExtensionIsStable(repo: Repo, listed: seq<Sha>, repo': Repo, listed': seq<Sha>, rules: Rules, c: Sha)
    requires Topological(repo, listed) && Topological(repo', listed')
    requires forall x | x in listed :: x in listed' && x in repo' && repo'[x] == repo[x]
    requires forall x, p | x in listed && p in repo[x].parents :: p in listed
    requires c in listed
    ensures Lookup(Rewrite(repo, listed, rules).shas, c) == Lookup(Rewrite(repo', listed', rules).shas, c)
  {
    ImageOfAncestors(repo, listed, repo', listed', rules, set x | x in listed);
  }

  // ---- What is published

  lemma {:induction false} KeptMeaning(files: seq<Entry>, rules: Rules)
    ensures forall f :: f in Kept(files, rules) <==> f in files && !Glob.Excluded(f.path, rules.excludes)
  {
    if files != [] {
      var n := |files| - 1;
      KeptMeaning(files[..n], rules);
      assert forall f :: f in files <==> f in files[..n] || f == files[n];
    }
  }

  /** The tree with its excluded paths removed. */
  function Filtered(tree: Tree, rules: Rules): Tree {
    map p | p in tree && !Glob.Excluded(p, rules.excludes) :: tree[p]
  }

  lemma EmptyTree(files: seq<Entry>)
    ensures WriteTree(files) == map[] <==> files == []
  {
    if files != [] {
      assert files[|files| - 1].path in WriteTree(files);
    }
  }

  lemma {:induction false} ParentsMeaning(m: map<Sha, Public>, parents: seq<Sha>)
    ensures forall q | q in PublicParents(m, parents) :: exists p :: p in parents && p in m && m[p] == q
    ensures PublicParents(m, parents) == [] <==> forall p | p in parents :: p !in m
  {
    if parents != [] {
      var n := |parents| - 1;
      ParentsMeaning(m, parents[..n]);
      assert forall p :: p in parents <==> p in parents[..n] || p == parents[n];
      forall q | q in PublicParents(m, parents) ensures exists p :: p in parents && p in m && m[p] == q {
        if q in PublicParents(m, parents[..n]) {
          var p :| p in parents[..n] && p in m && m[p] == q;
          assert p in parents;
        } else {
          assert parents[n] in parents;
        }
      }
    }
  }

  /** The tree a commit really has. */
  function PrivateTree(c: Commit): Tree {
    WriteTree(c.files)
  }

  /** What `derive` makes of a tree: paths are judged, and written again, as they were printed. */
  function Published(tree: Tree, rules: Rules): Tree {
    PrintedApart();
    map p | p in tree && !Glob.Excluded(Printed(p), rules.excludes) :: Printed(p) := tree[p]
  }

  lemma PublishedStep(tree: Tree, f: Entry, rules: Rules)
    ensures var grown := tree[f.path := (f.mode, f.oid)];
            Published(grown, rules) == if Glob.Excluded(Printed(f.path), rules.excludes) then Published(tree, rules)
                                       else Published(tree, rules)[Printed(f.path) := (f.mode, f.oid)]
  {
    hide Glob.Excluded, Printed;
    PrintedApart();
  }

  lemma {:induction false} TreeOfListing(files: seq<Entry>, rules: Rules)
    ensures WriteTree(Kept(Listing(files), rules)) == Published(WriteTree(files), rules)
  {
    hide Glob.Excluded, Printed, Published;
    if files != [] {
      var n := |files| - 1;
      TreeOfListing(files[..n], rules);
      var l, k := Listing(files), Kept(Listing(files[..n]), rules);
      assert l[..n] == Listing(files[..n]);
      assert (k + [l[n]])[..|k|] == k;
      PublishedStep(WriteTree(files[..n]), files[n], rules);
    } else {
      assert Published(map[], rules) == map[] by { NothingPublished(rules); }
    }
  }

  lemma NothingPublished(rules: Rules)
    ensures Published(map[], rules) == map[]
  {
  }

  lemma ShownTree(c: Commit, rules: Rules)
    ensures WriteTree(Shown(c, rules)) == Published(PrivateTree(c), rules)
    ensures Shown(c, rules) == [] <==> Published(PrivateTree(c), rules) == map[]
  {
    hide Published, Kept, WriteTree, Listing;
    TreeOfListing(c.files, rules);
    EmptyTree(Shown(c, rules));
  }

  /** A mapped commit's public tree is what `derive` makes of its private tree. */
  lemma MappedTree(repo: Repo, listed: seq<Sha>, rules: Rules, c: Sha)
    requires Topological(repo, listed) && c in Rewrite(repo, listed, rules).shas
    ensures c in listed && c in repo
    ensures Rewrite(repo, listed, rules).shas[c].tree == Published(PrivateTree(repo[c]), rules)
  {
    hide Published, Rewrite, Shown;
    var m := Rewrite(repo, listed, rules).shas;
    RewriteSettles(repo, listed, rules);
    assert Lookup(m, c) == Image(repo[c], rules, m);
    ShownTree(repo[c], rules);
  }

  // ---- Exactly when that is the tree without its excluded paths

  /** Some file of the tree is printed under the name `p`, with the content of `p`. */
  ghost predicate StandsIn(tree: Tree, p: Path)
    requires p in tree
  {
    exists q :: q in tree && Printed(q) == p && tree[q] == tree[p]
  }

  /**
   * A path git quotes does no harm: its printed form is excluded or is already a file with
   * the same content, and the path itself is excluded or some other file is printed as it,
   * with the same content.
   */
  ghost predicate Harmless(tree: Tree, p: Path, rules: Rules)
    requires p in tree
  {
    && (Glob.Excluded(Printed(p), rules.excludes) || (Printed(p) in tree && tree[Printed(p)] == tree[p]))
    && (Glob.Excluded(p, rules.excludes) || StandsIn(tree, p))
  }

  lemma PublishedMeaning(tree: Tree, rules: Rules, name: Path)
    ensures name in Published(tree, rules) <==>
            !Glob.Excluded(name, rules.excludes) && exists q :: q in tree && Printed(q) == name
    ensures forall q | q in tree && Printed(q) == name && name in Published(tree, rules) ::
              Published(tree, rules)[name] == tree[q]
  {
    hide Glob.Excluded, Printed;
    PrintedApart();
  }

  lemma UsualPrints(p: Path)
    ensures Usual(p) <==> Printed(p) == p
  {
    PrintedInjective(p, p);
  }

  lemma HarmlessSuffices(tree: Tree, rules: Rules, name: Path)
    requires forall p | p in tree && !Usual(p) :: Harmless(tree, p, rules)
    ensures name in Published(tree, rules) <==> name in Filtered(tree, rules)
    ensures name in Published(tree, rules) ==> Published(tree, rules)[name] == tree[name]
  {
    hide Glob.Excluded, Printed, Published, Usual;
    PublishedMeaning(tree, rules, name);
    UsualPrints(name);
    assert name in tree ==> Usual(name) || Harmless(tree, name, rules);
    if name in Published(tree, rules) {
      var q :| q in tree && Printed(q) == name;
      UsualPrints(q);
      assert Usual(q) || Harmless(tree, q, rules);
    }
  }

  lemma OnlyHarmless(tree: Tree, rules: Rules, p: Path)
    requires Published(tree, rules) == Filtered(tree, rules) && p in tree
    ensures Harmless(tree, p, rules)
  {
    hide Glob.Excluded, Printed, Published;
    PublishedMeaning(tree, rules, Printed(p));
    PublishedMeaning(tree, rules, p);
    if !Glob.Excluded(p, rules.excludes) {
      assert p in Filtered(tree, rules);
      var q :| q in tree && Printed(q) == p;
      assert tree[q] == Published(tree, rules)[p] == tree[p];
    }
  }

  lemma FilteredIff(tree: Tree, rules: Rules)
    ensures Published(tree, rules) == Filtered(tree, rules) <==> forall p | p in tree && !Usual(p) :: Harmless(tree, p, rules)
  {
    hide Glob.Excluded, Printed, Published, Usual, Harmless;
    if forall p | p in tree && !Usual(p) :: Harmless(tree, p, rules) {
      forall name
        ensures name in Published(tree, rules) <==> name in Filtered(tree, rules)
        ensures name in Published(tree, rules) ==> Published(tree, rules)[name] == tree[name]
      {
        HarmlessSuffices(tree, rules, name);
      }
    }
    if Published(tree, rules) == Filtered(tree, rules) {
      forall p | p in tree && !Usual(p) ensures Harmless(tree, p, rules) {
        OnlyHarmless(tree, rules, p);
      }
    }
  }

  /**
   * The public tree of a mapped commit is its private tree without the excluded paths
   * exactly when every path git quotes is harmless.
   */
  lemma PublicTree(repo: Repo, listed: seq<Sha>, rules: Rules, c: Sha)
    requires Topological(repo, listed) && c in Rewrite(repo, listed, rules).shas
    ensures c in repo
    ensures var tree := PrivateTree(repo[c]);
            Rewrite(repo, listed, rules).shas[c].tree == Filtered(tree, rules) <==>
            forall p | p in tree && !Usual(p) :: Harmless(tree, p, rules)
  {
    hide Rewrite, Harmless, Filtered, Published, WriteTree, Usual;
    MappedTree(repo, listed, rules, c);
    FilteredIff(PrivateTree(repo[c]), rules);
  }

  /**
   * Being harmless through another file is no idle clause: an excluded path that slips
   * through goes unnoticed if a file already sits under its printed name.
   */
  lemma TwinsHide(p: Path, file: (Bytes, Bytes), rules: Rules)
    requires Glob.PlainName(p) && !Usual(p) && rules.excludes == [p, Printed(Printed(p))]
    ensures var tree: Tree := map[p := file, Printed(p) := file];
            SlipsThrough(p, rules) && Published(tree, rules) == Filtered(tree, rules)
  {
    hide Printed, Glob.GlobMatch, Glob.PlainName;
    var q, z := Printed(p), Printed(Printed(p));
    var tree: Tree := map[p := file, q := file];
    QuotedShape(p);
    QuotedShape(q);
    PrintedName(p);
    PrintedName(q);
    Glob.LiteralIff(p, p);
    Glob.LiteralIff(p, q);
    Glob.LiteralIff(z, q);
    Glob.LiteralIff(z, z);
    assert p in rules.excludes && z in rules.excludes;
    assert Glob.Excluded(p, rules.excludes) && !Glob.Excluded(q, rules.excludes) && Glob.Excluded(z, rules.excludes);
    assert Published(tree, rules) == map[q := file];
    assert Filtered(tree, rules) == map[q := file];
  }

  lemma PrintedName(p: Path)
    requires Glob.PlainName(p)
    ensures Glob.PlainName(Printed(p))
  {
    EscapesAvoid(p, Glob.SLASH);
    EscapesAvoid(p, Glob.STAR);
    EscapesAvoid(p, Glob.QUESTION);
  }

  /** The images of all of some parents. */
  function Images(m: map<Sha, Public>, parents: seq<Sha>): (r: seq<Public>)
    requires forall p | p in parents :: p in m
    ensures |r| == |parents|
  {
    seq(|parents|, i requires 0 <= i < |parents| => m[parents[i]])
  }

  lemma {:induction false} AllParentsMapped(m: map<Sha, Public>, parents: seq<Sha>)
    requires forall p | p in parents :: p in m
    ensures PublicParents(m, parents) == Images(m, parents)
  {
    if parents != [] {
      AllParentsMapped(m, parents[..|parents| - 1]);
    }
  }

  lemma {:induction false} Longest(paths: set<Path>) returns (p: Path)
    requires paths != {}
    ensures p in paths && forall q | q in paths :: |q| <= |p|
  {
    p :| p in paths;
    if paths != {p} {
      var l := Longest(paths - {p});
      p := if |l| > |p| then l else p;
    }
  }

  /** Where nothing is excluded as printed, a tree is published as it is exactly when nothing in it needs quoting. */
  lemma UnchangedIff(tree: Tree, rules: Rules)
    requires forall p | p in tree :: !Glob.Excluded(Printed(p), rules.excludes)
    ensures Published(tree, rules) == tree <==> forall p | p in tree :: Usual(p)
  {
    hide Printed, Usual, Published, Glob.Excluded;
    if forall p | p in tree :: Usual(p) {
      forall p ensures p in Published(tree, rules) <==> p in tree
      ensures p in tree && p in Published(tree, rules) ==> Published(tree, rules)[p] == tree[p]
      {
        PublishedMeaning(tree, rules, p);
        if p in tree {
          UsualPrints(p);
        }
        if p in Published(tree, rules) {
          var q :| q in tree && Printed(q) == p;
          UsualPrints(q);
        }
      }
    }
    var odd := set p | p in tree && !Usual(p);
    assert forall p | p in tree && !Usual(p) :: p in odd;
    if Published(tree, rules) == tree && odd != {} {
      var p := Longest(odd);
      QuotedShape(p);
      PublishedAt(tree, rules, p);
    }
  }

  /**
   * Rules that match nothing in the history, and drop and filter nothing: every commit of a
   * complete history is published with its identities and message, with its parents in
   * their order, and with its own tree exactly when no path in it needs quoting.
   */
  lemma IdentityRules(repo: Repo, listed: seq<Sha>, rules: Rules, c: Sha)
    requires Topological(repo, listed) && c in listed
    requires forall x, p | x in listed && p in repo[x].parents :: p in listed
    requires forall p | p in Sources(repo, listed) :: !Glob.Excluded(Printed(p), rules.excludes)
    requires !rules.dropEmpty && !rules.filterMessages
    ensures var m, tree := Rewrite(repo, listed, rules).shas, PrivateTree(repo[c]);
            && (forall p | p in repo[c].parents :: p in m)
            && Lookup(m, c) == Some(Public(Published(tree, rules), Distinct(Images(m, repo[c].parents)), repo[c].who, repo[c].message))
            && (Published(tree, rules) == tree <==> forall p | p in tree :: Usual(p))
  {
    hide Rewrite, Published, Shown, Usual, WriteTree, Printed, Glob.Excluded;
    var m := Rewrite(repo, listed, rules).shas;
    RewriteSettles(repo, listed, rules);
    forall x | x in listed ensures x in m {
      assert Lookup(m, x) == Image(repo[x], rules, m);
    }
    AllParentsMapped(m, repo[c].parents);
    ShownTree(repo[c], rules);
    forall p | p in PrivateTree(repo[c]) ensures !Glob.Excluded(Printed(p), rules.excludes) {
      assert p in Sources(repo, listed);
    }
    UnchangedIff(PrivateTree(repo[c]), rules);
    assert Lookup(m, c) == Image(repo[c], rules, m);
  }

  /** A commit stays unmapped exactly when empties are dropped, it shows no file, and no parent is mapped. */
  lemma UnmappedIff(repo: Repo, listed: seq<Sha>, rules: Rules, c: Sha)
    requires Topological(repo, listed) && c in listed
    ensures var m := Rewrite(repo, listed, rules).shas;
            c !in m <==> && rules.dropEmpty
                         && (forall p | p in PrivateTree(repo[c]) :: Glob.Excluded(Printed(p), rules.excludes))
                         && (forall p | p in repo[c].parents :: p !in m)
  {
    hide Rewrite, Published, Shown, WriteTree, Printed, Glob.Excluded;
    var m := Rewrite(repo, listed, rules).shas;
    RewriteSettles(repo, listed, rules);
    assert Lookup(m, c) == Image(repo[c], rules, m);
    ShownTree(repo[c], rules);
    NothingShownIff(PrivateTree(repo[c]), rules);
    ParentsMeaning(m, repo[c].parents);
  }

  lemma NothingShownIff(tree: Tree, rules: Rules)
    ensures Published(tree, rules) == map[] <==> forall p | p in tree :: Glob.Excluded(Printed(p), rules.excludes)
  {
    hide Printed, Glob.Excluded;
    forall p | p in tree && !Glob.Excluded(Printed(p), rules.excludes) ensures Published(tree, rules) != map[] {
      assert Printed(p) in Published(tree, rules);
    }
  }

  /** Every path of every listed commit. */
  function Sources(repo: Repo, listed: seq<Sha>): set<Path>
    requires forall c | c in listed :: c in repo
  {
    set c, p | c in listed && p in PrivateTree(repo[c]) :: p
  }

  /**
   * A public commit fit to be seen, with all its public ancestors: every name in it is the
   * printed form of one of the private paths, and not excluded; and under
   * `drop_empty_commits` it is neither an empty root nor a repeat of its first parent's tree.
   */
  ghost predicate Presentable(p: Public, rules: Rules, sources: set<Path>) {
    && (forall name | name in p.tree :: !Glob.Excluded(name, rules.excludes) && exists q :: q in sources && Printed(q) == name)
    && (rules.dropEmpty ==> !(p.tree == map[] && p.parents == []) && (p.parents != [] ==> p.parents[0].tree != p.tree))
    && (forall q | q in p.parents :: Presentable(q, rules, sources))
  }

  lemma PublishPresentable(c: Commit, rules: Rules, ps: seq<Public>, sources: set<Path>)
    requires forall q | q in ps :: Presentable(q, rules, sources)
    requires !Empty(c, rules, ps) && PrivateTree(c).Keys <= sources
    ensures Presentable(Publish(c, rules, ps), rules, sources)
  {
    hide Printed, Glob.Excluded, Shown, WriteTree;
    ShownTree(c, rules);
    forall name | name in Published(PrivateTree(c), rules)
      ensures !Glob.Excluded(name, rules.excludes) && exists q :: q in sources && Printed(q) == name
    {
      var q :| q in PrivateTree(c) && !Glob.Excluded(Printed(q), rules.excludes) && Printed(q) == name;
      assert q in PrivateTree(c).Keys;
    }
  }

  lemma ImagePresentable(c: Commit, rules: Rules, m: map<Sha, Public>, sources: set<Path>)
    requires forall x | x in m :: Presentable(m[x], rules, sources)
    requires PrivateTree(c).Keys <= sources
    ensures Image(c, rules, m).Some? ==> Presentable(Image(c, rules, m).value, rules, sources)
  {
    hide Presentable, Publish, Empty, WriteTree;
    var ps := PublicParents(m, c.parents);
    ParentsMeaning(m, c.parents);
    if !Empty(c, rules, ps) {
      PublishPresentable(c, rules, ps, sources);
    } else if ps != [] {
      assert ps[0] in ps;
    }
  }

  lemma {:induction false} AllPresentable(repo: Repo, listed: seq<Sha>, rules: Rules, sources: set<Path>)
    requires forall c | c in listed :: c in repo && PrivateTree(repo[c]).Keys <= sources
    ensures forall c | c in Rewrite(repo, listed, rules).shas :: Presentable(Rewrite(repo, listed, rules).shas[c], rules, sources)
  {
    hide Presentable, Image, Next, WriteTree;
    if listed != [] {
      var n := |listed| - 1;
      AllPresentable(repo, listed[..n], rules, sources);
      ImagePresentable(repo[listed[n]], rules, Rewrite(repo, listed[..n], rules).shas, sources);
      RewriteStep(repo, listed, rules);
    }
  }

  /** Everything reachable from anything published is presentable. */
  lemma EverythingPresentable(repo: Repo, listed: seq<Sha>, rules: Rules)
    requires forall c | c in listed :: c in repo
    ensures forall c | c in Rewrite(repo, listed, rules).shas ::
              Presentable(Rewrite(repo, listed, rules).shas[c], rules, Sources(repo, listed))
  {
    hide Presentable, Rewrite, WriteTree;
    forall c | c in listed ensures PrivateTree(repo[c]).Keys <= Sources(repo, listed) {
    }
    AllPresentable(repo, listed, rules, Sources(repo, listed));
  }

  /** Commit `c` is published with the file that sits at the excluded path `p`. */
  ghost predicate Leaks(repo: Repo, m: map<Sha, Public>, rules: Rules, c: Sha, p: Path) {
    && c in m && c in repo && p in PrivateTree(repo[c]) && Glob.Excluded(p, rules.excludes)
    && Printed(p) in m[c].tree && m[c].tree[Printed(p)] == PrivateTree(repo[c])[p]
  }

  /** An excluded path whose printed form the rules miss. */
  predicate SlipsThrough(p: Path, rules: Rules) {
    Glob.Excluded(p, rules.excludes) && !Glob.Excluded(Printed(p), rules.excludes)
  }

  /**
   * Exactly when the mirror publishes something excluded: some listed commit has an excluded
   * path whose printed form no rule matches. Dropping empty commits never saves it.
   */
  lemma LeaksIff(repo: Repo, listed: seq<Sha>, rules: Rules)
    requires Topological(repo, listed)
    ensures (exists c, p :: Leaks(repo, Rewrite(repo, listed, rules).shas, rules, c, p)) <==>
            (exists p :: p in Sources(repo, listed) && SlipsThrough(p, rules))
  {
    hide Rewrite, WriteTree, Printed, Glob.Excluded, Published;
    var m := Rewrite(repo, listed, rules).shas;
    if c, p :| Leaks(repo, m, rules, c, p) {
      MappedTree(repo, listed, rules, c);
      PublishedAt(PrivateTree(repo[c]), rules, p);
      assert p in Sources(repo, listed) && SlipsThrough(p, rules);
    }
    if p :| p in Sources(repo, listed) && SlipsThrough(p, rules) {
      var c :| c in listed && p in PrivateTree(repo[c]);
      UnmappedIff(repo, listed, rules, c);
      MappedTree(repo, listed, rules, c);
      PublishedAt(PrivateTree(repo[c]), rules, p);
      assert Leaks(repo, m, rules, c, p);
    }
  }

  lemma PublishedAt(tree: Tree, rules: Rules, p: Path)
    requires p in tree
    ensures Printed(p) in Published(tree, rules) <==> !Glob.Excluded(Printed(p), rules.excludes)
    ensures Printed(p) in Published(tree, rules) ==> Published(tree, rules)[Printed(p)] == tree[p]
  {
    hide Printed, Glob.Excluded;
    PrintedApart();
  }

  /** Rules that each exclude one whole directory, as the default rules do. */
  predicate DirectoryRules(rules: Rules, names: seq<Bytes>) {
    && |rules.excludes| == |names|
    && forall i | 0 <= i < |names| ::
         Glob.PlainName(names[i]) && names[i][0] != QUOTE && rules.excludes[i] == Glob.Under(names[i])
  }

  /** `Rules::default_pub`. */
  function DefaultRules(filter: Bytes -> Bytes): Rules {
    Rules([Glob.Under(Ascii("fixes")), Glob.Under(Ascii("internal"))], true, true, filter)
  }

  lemma DefaultsAreDirectoryRules(filter: Bytes -> Bytes)
    ensures DirectoryRules(DefaultRules(filter), [Ascii("fixes"), Ascii("internal")])
  {
    PlainWord("fixes");
    PlainWord("internal");
  }

  lemma PlainWord(s: string)
    requires s != "" && forall i | 0 <= i < |s| :: 'a' <= s[i] <= 'z'
    ensures Glob.PlainName(Ascii(s)) && Ascii(s)[0] != QUOTE
  {
    var n := Ascii(s);
    forall i | 0 <= i < |n| ensures 0x61 <= n[i] <= 0x7A {
      assert n[i] == Octet(s[i]);
    }
  }

  /**
   * Directory rules, the default ones among them, let through exactly the excluded paths
   * that git quotes: a quoted path is under no directory.
   */
  lemma DirectoryRulesMissQuoted(rules: Rules, names: seq<Bytes>, p: Path)
    requires DirectoryRules(rules, names)
    ensures SlipsThrough(p, rules) <==> Glob.Excluded(p, rules.excludes) && !Usual(p)
  {
    hide Glob.GlobMatch, Glob.Under, Glob.Segments, Glob.PlainName, Usual;
    if !Usual(p) {
      QuotedShape(p);
      Glob.FirstSegment(Printed(p));
      forall g | g in rules.excludes ensures !Glob.GlobMatch(g, Printed(p)) {
        var i :| 0 <= i < |names| && rules.excludes[i] == g;
        Glob.UnderIff(names[i], Printed(p));
      }
    }
  }

  /** One input of that family: the default rules publish `internal/` followed by a DEL. */
  lemma DefaultRulesLeak(filter: Bytes -> Bytes) returns (p: Path)
    ensures p == Ascii("internal/") + [0x7F] && SlipsThrough(p, DefaultRules(filter))
  {
    hide Glob.GlobMatch;
    p := Ascii("internal/") + [0x7F];
    var rules, dir := DefaultRules(filter), Ascii("internal");
    assert p == dir + [Glob.SLASH] + [0x7F];
    DefaultsAreDirectoryRules(filter);
    DirectoryRulesMissQuoted(rules, [Ascii("fixes"), dir], p);
    assert Unusual(p[9]);
    assert Glob.PlainName(dir) by { PlainWord("internal"); }
    Glob.SegmentsAtSlash(dir, [0x7F]);
    Glob.SegmentsOfOne(dir);
    Glob.UnderIff(dir, p);
    assert rules.excludes[1] in rules.excludes;
  }

  /** Every listed commit is either kept or dropped, and counted once. */
  lemma {:induction false} CountsAddUp(repo: Repo, listed: seq<Sha>, rules: Rules)
    requires forall c | c in listed :: c in repo
    ensures Rewrite(repo, listed, rules).kept + Rewrite(repo, listed, rules).dropped == |listed|
  {
    hide Image, Empty;
    if listed != [] {
      CountsAddUp(repo, listed[..|listed| - 1], rules);
    }
  }

  /** `oid` is the content of some listed commit's file whose printed path no rule matches. */
  ghost predicate Seen(repo: Repo, listed: seq<Sha>, rules: Rules, oid: Bytes)
    requires forall c | c in listed :: c in repo
  {
    exists c, f :: c in listed && f in repo[c].files && f.oid == oid && !Glob.Excluded(Printed(f.path), rules.excludes)
  }

  lemma ShownOids(c: Commit, rules: Rules, oid: Bytes)
    ensures oid in Oids(Shown(c, rules)) <==>
            exists f :: f in c.files && f.oid == oid && !Glob.Excluded(Printed(f.path), rules.excludes)
  {
    hide Glob.Excluded, Printed, Kept;
    var l := Listing(c.files);
    KeptMeaning(l, rules);
    if g :| g in Kept(l, rules) && g.oid == oid {
      var i :| 0 <= i < |l| && l[i] == g;
      assert c.files[i] in c.files;
    }
    if f :| f in c.files && f.oid == oid && !Glob.Excluded(Printed(f.path), rules.excludes) {
      var i :| 0 <= i < |c.files| && c.files[i] == f;
      assert l[i] in l && l[i] in Kept(l, rules);
    }
  }

  /** Exactly the contents of files whose printed path no rule matches are copied to the public repository. */
  lemma {:induction false} CopiedIff(repo: Repo, listed: seq<Sha>, rules: Rules, oid: Bytes)
    requires forall c | c in listed :: c in repo
    ensures oid in Rewrite(repo, listed, rules).blobs <==> Seen(repo, listed, rules, oid)
  {
    hide Image, Empty, Glob.Excluded, Printed, Shown;
    if listed != [] {
      var n := |listed| - 1;
      CopiedIff(repo, listed[..n], rules, oid);
      ShownOids(repo[listed[n]], rules, oid);
      assert forall c :: c in listed <==> c in listed[..n] || c == listed[n];
    }
  }

  /** Every parent of a published commit is the image of a commit listed earlier. */
  lemma {:induction false} ParentsPublishedEarlier(repo: Repo, listed: seq<Sha>, rules: Rules, i: nat, q: Public)
    requires Topological(repo, listed) && i < |listed| && listed[i] in Rewrite(repo, listed, rules).shas
    requires q in Rewrite(repo, listed, rules).shas[listed[i]].parents
    ensures exists j :: 0 <= j < i && Lookup(Rewrite(repo, listed, rules).shas, listed[j]) == Some(q)
    decreases i
  {
    hide Rewrite, Empty;
    var m, c := Rewrite(repo, listed, rules).shas, repo[listed[i]];
    RewriteSettles(repo, listed, rules);
    assert Lookup(m, listed[i]) == Image(c, rules, m);
    var ps := PublicParents(m, c.parents);
    ParentsMeaning(m, c.parents);
    var x := if Empty(c, rules, ps) then ps[0] else q;
    assert x in ps;
    var p :| p in c.parents && p in m && m[p] == x;
    assert p in listed[..i];
    var j :| 0 <= j < i && listed[j] == p;
    if Empty(c, rules, ps) {
      ParentsPublishedEarlier(repo, listed, rules, j, q);
    }
  }

  // ---- The public head

  /** Every listed commit but the last is a parent of a later one: all are ancestors of HEAD. */
  ghost predicate EndsAtHead(repo: Repo, listed: seq<Sha>)
    requires forall c | c in listed :: c in repo
  {
    forall i | 0 <= i < |listed| - 1 :: HasChild(repo, listed, i)
  }

  ghost predicate HasChild(repo: Repo, listed: seq<Sha>, i: nat)
    requires i < |listed| && forall c | c in listed :: c in repo
  {
    exists j :: i < j < |listed| && listed[i] in repo[listed[j]].parents
  }

  lemma {:induction false} UnmappedSpreads(repo: Repo, listed: seq<Sha>, rules: Rules, i: nat)
    requires Topological(repo, listed) && EndsAtHead(repo, listed) && i < |listed|
    requires listed[|listed| - 1] !in Rewrite(repo, listed, rules).shas
    ensures forall j | i <= j < |listed| :: listed[j] !in Rewrite(repo, listed, rules).shas
    decreases |listed| - i
  {
    if i < |listed| - 1 {
      UnmappedSpreads(repo, listed, rules, i + 1);
      assert HasChild(repo, listed, i);
      var j :| i < j < |listed| && listed[i] in repo[listed[j]].parents;
      UnmappedIff(repo, listed, rules, listed[j]);
    }
  }

  lemma {:induction false} HeadNeedsAMap(repo: Repo, listed: seq<Sha>, rules: Rules)
    requires forall c | c in listed :: c in repo
    ensures Rewrite(repo, listed, rules).shas == map[] ==> Rewrite(repo, listed, rules).head == None
  {
    if listed != [] {
      HeadNeedsAMap(repo, listed[..|listed| - 1], rules);
      assert listed[|listed| - 1] in listed;
      var d := Rewrite(repo, listed, rules);
      assert Image(repo[listed[|listed| - 1]], rules, Rewrite(repo, listed[..|listed| - 1], rules).shas).Some?
             ==> listed[|listed| - 1] in d.shas;
    }
  }

  /** The public head is the image of private HEAD, and is absent exactly when nothing at all was mapped. */
  lemma PublicHead(repo: Repo, listed: seq<Sha>, rules: Rules)
    requires listed != [] && Topological(repo, listed) && EndsAtHead(repo, listed)
    ensures var d := Rewrite(repo, listed, rules);
            d.head == Lookup(d.shas, listed[|listed| - 1]) && (d.head == None <==> d.shas == map[])
  {
    var n := |listed| - 1;
    var d := Rewrite(repo, listed, rules);
    HeadNeedsAMap(repo, listed, rules);
    RewriteSettles(repo, listed, rules);
    if listed[n] !in d.shas {
      UnmappedSpreads(repo, listed, rules, 0);
      assert forall c | c in listed :: c !in d.shas;
      assert d.shas.Keys == {};
    } else {
      var before := Rewrite(repo, listed[..n], rules).shas;
      TopologicalPrefix(repo, listed);
      RewriteSettles(repo, listed[..n], rules);
      assert listed[n] !in listed[..n];
    }
  }
}
