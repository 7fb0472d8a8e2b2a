/** What a published commit says besides its tree (crates/nas-cli/src/mirror.rs:652-691). */
module MirrorCommits {
  import opened Wrappers
  import opened Bytes
  import opened GitPaths
  import opened Mirror
  import Glob

  // ---- Trees

  /** A tree holds, under each path, the mode and blob of the last file with that path. */
  lemma {:induction false} TreeMeaning(files: seq<Entry>, p: Path)
    ensures p in WriteTree(files) <==> exists i :: 0 <= i < |files| && files[i].path == p
    ensures p in WriteTree(files) ==>
            exists i :: 0 <= i < |files| && files[i].path == p && WriteTree(files)[p] == (files[i].mode, files[i].oid)
                        && forall j | i < j < |files| :: files[j].path != p
  {
    if files != [] {
      var n := |files| - 1;
      TreeMeaning(files[..n], p);
      assert forall j | 0 <= j < n :: files[..n][j] == files[j];
      if files[n].path == p {
        assert WriteTree(files)[p] == (files[n].mode, files[n].oid);
      } else if p in WriteTree(files) {
        var i :| 0 <= i < n && files[..n][i].path == p && WriteTree(files[..n])[p] == (files[..n][i].mode, files[..n][i].oid)
                 && forall j | i < j < n :: files[..n][j].path != p;
        assert files[i].path == p && forall j | i < j < |files| :: files[j].path != p;
      }
    }
  }

  /** Copying fails exactly on a submodule that no rule hides. */
  lemma CopyableIff(c: Commit, rules: Rules)
    ensures Copyable(c, rules) <==>
            forall f | f in c.files && !Glob.Excluded(Printed(f.path), rules.excludes) :: f.mode != Ascii("160000")
  {
    hide Glob.Excluded, Printed, Kept, Ascii;
    var l := Listing(c.files);
    KeptMeaning(l, rules);
    if Copyable(c, rules) {
      forall f | f in c.files && !Glob.Excluded(Printed(f.path), rules.excludes) ensures f.mode != Ascii("160000") {
        var i :| 0 <= i < |c.files| && c.files[i] == f;
        assert l[i] in l;
        assert l[i] in Shown(c, rules) && !Gitlink(l[i]);
      }
    } else {
      var g :| g in Shown(c, rules) && Gitlink(g);
      var i :| 0 <= i < |l| && l[i] == g;
      assert c.files[i] in c.files && c.files[i].mode == Ascii("160000");
    }
  }

  // ---- Parents

  /** `at` picks some positions of a list, in order. */
  predicate Picks(at: seq<nat>, n: nat) {
    && (forall i | 0 <= i < |at| :: at[i] < n)
    && (forall i, j | 0 <= i < j < |at| :: at[i] < at[j])
  }

  /** The public parents are the images of exactly the mapped parents, in their order. */
  lemma {:induction false} ParentsInOrder(m: map<Sha, Public>, parents: seq<Sha>) returns (at: seq<nat>)
    ensures Picks(at, |parents|) && |at| == |PublicParents(m, parents)|
    ensures forall i | 0 <= i < |at| :: parents[at[i]] in m && PublicParents(m, parents)[i] == m[parents[at[i]]]
    ensures forall k: nat | k < |parents| && parents[k] in m :: k in at
  {
    at := [];
    if parents != [] {
      var n := |parents| - 1;
      at := ParentsInOrder(m, parents[..n]);
      if parents[n] in m {
        at := at + [n];
      }
    }
  }

  /** `at` picks, in order, where each of the distinct parents first stands. */
  predicate FirstStands(ps: seq<Public>, distinct: seq<Public>, at: seq<nat>) {
    && Picks(at, |ps|) && |at| == |distinct|
    && forall i | 0 <= i < |at| :: distinct[i] == ps[at[i]] && ps[at[i]] !in ps[..at[i]]
  }

  lemma StandsStep(ps: seq<Public>, distinct: seq<Public>, at: seq<nat>)
    requires ps != [] && FirstStands(ps[..|ps| - 1], distinct, at)
    requires forall q :: q in distinct <==> q in ps[..|ps| - 1]
    ensures var q := ps[|ps| - 1];
            if q in distinct then FirstStands(ps, distinct, at) else FirstStands(ps, distinct + [q], at + [|ps| - 1])
  {
    var n := |ps| - 1;
    forall i | 0 <= i < |at| ensures ps[..n][at[i]] == ps[at[i]] && ps[..n][..at[i]] == ps[..at[i]] {
    }
  }

  /** Repeats are dropped, and each parent stays where it first stood. */
  lemma {:induction false} DistinctInOrder(ps: seq<Public>) returns (at: seq<nat>)
    ensures FirstStands(ps, Distinct(ps), at)
    ensures forall i, j | 0 <= i < j < |at| :: Distinct(ps)[i] != Distinct(ps)[j]
  {
    at := [];
    if ps != [] {
      hide FirstStands;
      var n := |ps| - 1;
      at := DistinctInOrder(ps[..n]);
      StandsStep(ps, Distinct(ps[..n]), at);
      assert |at| == |Distinct(ps[..n])| by { SameLength(ps[..n], Distinct(ps[..n]), at); }
      if ps[n] !in Distinct(ps[..n]) {
        at := at + [n];
      }
    }
  }

  lemma SameLength(ps: seq<Public>, distinct: seq<Public>, at: seq<nat>)
    requires FirstStands(ps, distinct, at)
    ensures |at| == |distinct|
  {
  }

  // ---- The commit

  /** The first parent that is mapped. */
  predicate FirstMapped(m: map<Sha, Public>, parents: seq<Sha>, i: nat) {
    i < |parents| && parents[i] in m && forall j | 0 <= j < i :: parents[j] !in m
  }

  lemma FirstIsFirst(m: map<Sha, Public>, parents: seq<Sha>) returns (i: nat)
    requires PublicParents(m, parents) != []
    ensures FirstMapped(m, parents, i) && PublicParents(m, parents)[0] == m[parents[i]]
  {
    var at := ParentsInOrder(m, parents);
    i := at[0];
    assert forall k: nat | k in at :: k >= i;
  }

  /** What the rules make of a message. */
  function Worded(message: Bytes, rules: Rules): Bytes {
    if rules.filterMessages then rules.filter(message) else message
  }

  /** A commit brings nothing new: its first mapped parent was published with the tree it would have. */
  ghost predicate Dropped(c: Commit, rules: Rules, m: map<Sha, Public>) {
    && rules.dropEmpty
    && exists i: nat :: FirstMapped(m, c.parents, i) && m[c.parents[i]].tree == Published(PrivateTree(c), rules)
  }

  lemma DroppedIff(c: Commit, rules: Rules, m: map<Sha, Public>)
    ensures var ps := PublicParents(m, c.parents);
            Dropped(c, rules, m) <==> rules.dropEmpty && ps != [] && ps[0].tree == Published(PrivateTree(c), rules)
  {
    hide Published, WriteTree;
    var ps := PublicParents(m, c.parents);
    ParentsMeaning(m, c.parents);
    if ps != [] {
      var i := FirstIsFirst(m, c.parents);
      assert forall j: nat | FirstMapped(m, c.parents, j) :: j == i;
    } else {
      assert forall i: nat :: !FirstMapped(m, c.parents, i);
    }
  }

  /**
   * What a mapped commit is. Either it brings nothing new and is its first mapped parent's
   * image; or it is published with its own identities, its message as the rules word it, and
   * the images of its mapped parents in order, repeats dropped.
   */
  lemma MappedCommit(repo: Repo, listed: seq<Sha>, rules: Rules, c: Sha)
    requires Topological(repo, listed) && c in Rewrite(repo, listed, rules).shas
    ensures c in repo
    ensures var m := Rewrite(repo, listed, rules).shas;
            if Dropped(repo[c], rules, m) then
              exists i: nat :: FirstMapped(m, repo[c].parents, i) && m[c] == m[repo[c].parents[i]]
            else
              && m[c].who == repo[c].who && m[c].message == Worded(repo[c].message, rules)
              && m[c].tree == Published(PrivateTree(repo[c]), rules)
              && m[c].parents == Distinct(PublicParents(m, repo[c].parents))
  {
    hide Rewrite, Published, Shown, Dropped, WriteTree, PublicParents, Distinct;
    var m := Rewrite(repo, listed, rules).shas;
    RewriteSettles(repo, listed, rules);
    assert Lookup(m, c) == Image(repo[c], rules, m);
    ShownTree(repo[c], rules);
    DroppedIff(repo[c], rules, m);
    if Dropped(repo[c], rules, m) {
      var _ := FirstIsFirst(m, repo[c].parents);
    }
  }

  // ---- Everything reachable

  /** A public commit and all its ancestors carry the identities and the worded message of some private commit. */
  ghost predicate Authored(p: Public, rules: Rules, commits: set<Commit>) {
    && (exists c :: c in commits && p.who == c.who && p.message == Worded(c.message, rules))
    && (forall q | q in p.parents :: Authored(q, rules, commits))
  }

  lemma ImageAuthored(c: Commit, rules: Rules, m: map<Sha, Public>, commits: set<Commit>)
    requires c in commits && forall x | x in m :: Authored(m[x], rules, commits)
    ensures Image(c, rules, m).Some? ==> Authored(Image(c, rules, m).value, rules, commits)
  {
    hide Empty, WriteTree, Shown;
    var ps := PublicParents(m, c.parents);
    ParentsMeaning(m, c.parents);
    if Empty(c, rules, ps) {
      if ps != [] { assert ps[0] in ps; }
    } else {
      assert Publish(c, rules, ps).who == c.who && Publish(c, rules, ps).message == Worded(c.message, rules);
    }
  }

  lemma {:induction false} AllAuthored(repo: Repo, listed: seq<Sha>, rules: Rules, commits: set<Commit>)
    requires forall c | c in listed :: c in repo && repo[c] in commits
    ensures forall c | c in Rewrite(repo, listed, rules).shas :: Authored(Rewrite(repo, listed, rules).shas[c], rules, commits)
  {
    hide Authored, Image, Next;
    if listed != [] {
      var n := |listed| - 1;
      AllAuthored(repo, listed[..n], rules, commits);
      ImageAuthored(repo[listed[n]], rules, Rewrite(repo, listed[..n], rules).shas, commits);
      RewriteStep(repo, listed, rules);
    }
  }

  /**
   * Nothing reachable from a published commit says anything but the identities of a listed
   * commit and its message as the rules word it: with `filter_messages`, the filtered one.
   */
  lemma EverythingAuthored(repo: Repo, listed: seq<Sha>, rules: Rules)
    requires forall c | c in listed :: c in repo
    ensures forall c | c in Rewrite(repo, listed, rules).shas ::
              Authored(Rewrite(repo, listed, rules).shas[c], rules, set x | x in listed :: repo[x])
  {
    hide Authored, Rewrite;
    AllAuthored(repo, listed, rules, set x | x in listed :: repo[x]);
  }

  // ---- The counters

  /** The listed commits that brought nothing new. */
  ghost function Idle(repo: Repo, listed: seq<Sha>, rules: Rules, m: map<Sha, Public>): set<Sha>
    requires forall c | c in listed :: c in repo
  {
    set c | c in listed && (c !in m || Dropped(repo[c], rules, m))
  }

  lemma EmptyIff(repo: Repo, listed: seq<Sha>, rules: Rules, c: Sha)
    requires Topological(repo, listed) && c in listed
    ensures var m := Rewrite(repo, listed, rules).shas;
            Empty(repo[c], rules, PublicParents(m, repo[c].parents)) <==> c !in m || Dropped(repo[c], rules, m)
  {
    hide Rewrite, Published, Shown, Dropped, WriteTree, PublicParents;
    var m := Rewrite(repo, listed, rules).shas;
    RewriteSettles(repo, listed, rules);
    assert Lookup(m, c) == Image(repo[c], rules, m);
    ShownTree(repo[c], rules);
    DroppedIff(repo[c], rules, m);
  }

  lemma ParentsSettled(repo: Repo, listed: seq<Sha>, rules: Rules, c: Sha)
    requires listed != [] && Topological(repo, listed) && c in listed
    ensures PublicParents(Rewrite(repo, listed, rules).shas, repo[c].parents)
         == PublicParents(Rewrite(repo, listed[..|listed| - 1], rules).shas, repo[c].parents)
  {
    hide Image, Empty, Rewrite;
    var n := |listed| - 1;
    var before, after := Rewrite(repo, listed[..n], rules).shas, Rewrite(repo, listed, rules).shas;
    RewriteStep(repo, listed, rules);
    TopologicalPrefix(repo, listed);
    RewriteSettles(repo, listed[..n], rules);
    var i :| 0 <= i < |listed| && listed[i] == c;
    forall p | p in repo[c].parents ensures Lookup(before, p) == Lookup(after, p) {
      if p == listed[n] {
        assert p in listed && p in listed[..i];
      }
    }
    SameParents(before, after, repo[c].parents);
  }

  lemma {:induction false} DroppedCount(repo: Repo, listed: seq<Sha>, rules: Rules)
    requires Topological(repo, listed)
    ensures Rewrite(repo, listed, rules).dropped == |Empties(repo, listed, rules, Rewrite(repo, listed, rules).shas)|
  {
    hide Image, Empty;
    if listed == [] {
      assert Empties(repo, listed, rules, Rewrite(repo, listed, rules).shas) == {};
    } else {
      var n := |listed| - 1;
      TopologicalPrefix(repo, listed);
      DroppedCount(repo, listed[..n], rules);
      EmptiesStep(repo, listed, rules);
    }
  }

  ghost function Empties(repo: Repo, listed: seq<Sha>, rules: Rules, m: map<Sha, Public>): set<Sha>
    requires forall c | c in listed :: c in repo
  {
    set c | c in listed && Empty(repo[c], rules, PublicParents(m, repo[c].parents))
  }

  lemma EmptiesStep(repo: Repo, listed: seq<Sha>, rules: Rules)
    requires listed != [] && Topological(repo, listed)
    ensures var n := |listed| - 1;
            var (before, after) := (Rewrite(repo, listed[..n], rules).shas, Rewrite(repo, listed, rules).shas);
            |Empties(repo, listed, rules, after)| == |Empties(repo, listed[..n], rules, before)|
              + if Empty(repo[listed[n]], rules, PublicParents(before, repo[listed[n]].parents)) then 1 else 0
  {
    hide Rewrite, Empties;
    var n := |listed| - 1;
    var (before, after) := (Rewrite(repo, listed[..n], rules).shas, Rewrite(repo, listed, rules).shas);
    assert Empties(repo, listed, rules, after) == Empties(repo, listed, rules, before) by {
      forall x | x in listed ensures PublicParents(after, repo[x].parents) == PublicParents(before, repo[x].parents) {
        ParentsSettled(repo, listed, rules, x);
      }
      SameEmpties(repo, listed, rules, before, after);
    }
    NotBefore(repo, listed);
    OneMore(repo, listed, rules, before);
  }

  lemma NotBefore(repo: Repo, listed: seq<Sha>)
    requires listed != [] && Topological(repo, listed)
    ensures listed[|listed| - 1] !in listed[..|listed| - 1] && forall c | c in listed :: c in repo
  {
  }

  lemma SameEmpties(repo: Repo, listed: seq<Sha>, rules: Rules, m: map<Sha, Public>, k: map<Sha, Public>)
    requires forall c | c in listed :: c in repo && PublicParents(m, repo[c].parents) == PublicParents(k, repo[c].parents)
    ensures Empties(repo, listed, rules, m) == Empties(repo, listed, rules, k)
  {
    hide Empty, PublicParents;
  }

  lemma OneMore(repo: Repo, listed: seq<Sha>, rules: Rules, m: map<Sha, Public>)
    requires listed != [] && listed[|listed| - 1] !in listed[..|listed| - 1] && forall c | c in listed :: c in repo
    ensures var n := |listed| - 1;
            |Empties(repo, listed, rules, m)| == |Empties(repo, listed[..n], rules, m)|
              + if Empty(repo[listed[n]], rules, PublicParents(m, repo[listed[n]].parents)) then 1 else 0
  {
    hide Empty, PublicParents;
    var n := |listed| - 1;
    var c, before := listed[n], Empties(repo, listed[..n], rules, m);
    assert c !in before;
    assert forall x :: x in listed <==> x in listed[..n] || x == c;
    if Empty(repo[c], rules, PublicParents(m, repo[c].parents)) {
      assert Empties(repo, listed, rules, m) == before + {c};
    } else {
      assert Empties(repo, listed, rules, m) == before;
    }
  }

  /** The counters: dropped are exactly the commits that brought nothing new, and kept are all the others. */
  lemma CountsMeaning(repo: Repo, listed: seq<Sha>, rules: Rules)
    requires Topological(repo, listed)
    ensures var d := Rewrite(repo, listed, rules);
            && d.dropped == |Idle(repo, listed, rules, d.shas)|
            && d.kept == |listed| - |Idle(repo, listed, rules, d.shas)|
  {
    hide Rewrite, Empty, Dropped;
    var m := Rewrite(repo, listed, rules).shas;
    DroppedCount(repo, listed, rules);
    CountsAddUp(repo, listed, rules);
    forall c | c in listed
      ensures Empty(repo[c], rules, PublicParents(m, repo[c].parents)) <==> c !in m || Dropped(repo[c], rules, m)
    {
      EmptyIff(repo, listed, rules, c);
    }
    assert Empties(repo, listed, rules, m) == Idle(repo, listed, rules, m);
  }
}
