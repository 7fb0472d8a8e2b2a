/** Addresses in octet order: what sorting, de-duplication and a BTreeSet all come to. */
module AddrOrder {
  import opened Bytes

  type Addr = Digest

  /** Lexicographic order on octets, as Rust compares `[u8; 32]`. */
  predicate Less(a: Bytes, b: Bytes) {
    b != [] && (a == [] || a[0] < b[0] || (a[0] == b[0] && Less(a[1..], b[1..])))
  }

  lemma {:induction false} LessTotal(a: Bytes, b: Bytes)
    ensures Less(a, b) || a == b || Less(b, a)
    ensures !(Less(a, b) && Less(b, a)) && !Less(a, a)
  {
    if a != [] {
      LessTotal(a[1..], a[1..]);
      if b != [] {
        LessTotal(a[1..], b[1..]);
        assert a == [a[0]] + a[1..] && b == [b[0]] + b[1..];
      }
    }
  }

  /** At the first difference the smaller octet comes first, and the end of the text before any octet. */
  lemma {:induction false} LessIff(a: Bytes, b: Bytes)
    ensures Less(a, b) <==>
            exists i :: 0 <= i <= |a| && i < |b| && a[..i] == b[..i] && (i == |a| || a[i] < b[i])
  {
    if a != [] && b != [] && a[0] == b[0] {
      LessIff(a[1..], b[1..]);
      if Less(a, b) {
        var i :| 0 <= i <= |a[1..]| && i < |b[1..]| && a[1..][..i] == b[1..][..i] && (i == |a[1..]| || a[1..][i] < b[1..][i]);
        assert a[..i + 1] == [a[0]] + a[1..][..i] && b[..i + 1] == [b[0]] + b[1..][..i];
      }
      if i :| 0 <= i <= |a| && i < |b| && a[..i] == b[..i] && (i == |a| || a[i] < b[i]) {
        assert i > 0;
        assert a[1..][..i - 1] == a[..i][1..] && b[1..][..i - 1] == b[..i][1..];
      }
    } else if b != [] {
      assert a[..0] == b[..0];
      assert forall i | 0 < i <= |a| && i < |b| :: a[..i][0] == a[0] && b[..i][0] == b[0];
    }
  }

  lemma {:induction false} LessTransitive(a: Bytes, b: Bytes, c: Bytes)
    requires Less(a, b) && Less(b, c)
    ensures Less(a, c)
  {
    if a != [] && a[0] == b[0] == c[0] {
      LessTransitive(a[1..], b[1..], c[1..]);
    }
  }

  /** Strictly ascending: the canonical spelling of a set. */
  predicate Ascending(s: seq<Addr>) {
    forall i, j | 0 <= i < j < |s| :: Less(s[i], s[j])
  }

  function Elements(s: seq<Addr>): set<Addr> {
    set a | a in s
  }

  lemma TailElements(s: seq<Addr>)
    requires s != [] && Ascending(s)
    ensures Elements(s) == {s[0]} + Elements(s[1..]) && s[0] !in s[1..] && Ascending(s[1..])
  {
    LessTotal(s[0], s[0]);
    assert s == [s[0]] + s[1..];
  }

  /** `BTreeSet::insert`. */
  function Insert(x: Addr, s: seq<Addr>): (r: seq<Addr>)
    requires Ascending(s)
    ensures Ascending(r) && Elements(r) == Elements(s) + {x}
  {
    if s == [] then [x] else
      LessTotal(x, s[0]);
      TailElements(s);
      if x == s[0] then s
      else if Less(x, s[0]) then
        InsertFirst(x, s);
        [x] + s
      else
        var rest := Insert(x, s[1..]);
        InsertRest(s, rest, x);
        [s[0]] + rest
  }

  lemma InsertFirst(x: Addr, s: seq<Addr>)
    requires s != [] && Ascending(s) && Less(x, s[0])
    ensures Ascending([x] + s) && Elements([x] + s) == Elements(s) + {x}
  {
    forall j | 1 <= j < |s| ensures Less(x, s[j]) {
      LessTransitive(x, s[0], s[j]);
    }
  }

  lemma InsertRest(s: seq<Addr>, rest: seq<Addr>, x: Addr)
    requires s != [] && Ascending(s) && Less(s[0], x)
    requires Ascending(rest) && Elements(rest) == Elements(s[1..]) + {x}
    ensures Ascending([s[0]] + rest) && Elements([s[0]] + rest) == Elements(s) + {x}
  {
    TailElements(s);
    forall j | 0 <= j < |rest| ensures Less(s[0], rest[j]) {
      assert rest[j] in Elements(rest);
    }
    var r := [s[0]] + rest;
    assert forall a :: a in r <==> a == s[0] || a in rest;
  }

  /** `BTreeSet::remove`. */
  function Remove(x: Addr, s: seq<Addr>): (r: seq<Addr>)
    requires Ascending(s)
    ensures Ascending(r) && Elements(r) == Elements(s) - {x}
  {
    if s == [] then [] else
      TailElements(s);
      if s[0] == x then s[1..] else
        var rest := Remove(x, s[1..]);
        RemoveRest(s, rest, x);
        [s[0]] + rest
  }

  lemma RemoveRest(s: seq<Addr>, rest: seq<Addr>, x: Addr)
    requires s != [] && Ascending(s) && s[0] != x
    requires Ascending(rest) && Elements(rest) == Elements(s[1..]) - {x}
    ensures Ascending([s[0]] + rest) && Elements([s[0]] + rest) == Elements(s) - {x}
  {
    TailElements(s);
    forall j | 0 <= j < |rest| ensures Less(s[0], rest[j]) {
      assert rest[j] in Elements(rest);
    }
    var r := [s[0]] + rest;
    assert forall a :: a in r <==> a == s[0] || a in rest;
    assert Elements(r) == {s[0]} + Elements(rest);
  }

  /** A set has one strictly ascending spelling. */
  lemma {:induction false} AscendingUnique(s: seq<Addr>, t: seq<Addr>)
    requires Ascending(s) && Ascending(t) && Elements(s) == Elements(t)
    ensures s == t
  {
    if s == [] {
      assert forall i | 0 <= i < |t| :: t[i] in Elements(t);
    } else {
      assert s[0] in Elements(t);
      TailElements(s);
      TailElements(t);
      assert t[0] in Elements(s);
      LessTotal(s[0], t[0]);
      assert s[0] == t[0];
      AscendingUnique(s[1..], t[1..]);
      assert s == [s[0]] + s[1..] && t == [t[0]] + t[1..];
    }
  }

  /** `canonicalise`: sort, then drop duplicates. */
  function Canonicalise(addrs: seq<Addr>): (r: seq<Addr>)
    ensures Ascending(r) && Elements(r) == Elements(addrs)
  {
    if addrs == [] then [] else
      assert Elements(addrs) == Elements(addrs[1..]) + {addrs[0]} by {
        assert forall a :: a in addrs <==> a == addrs[0] || a in addrs[1..];
      }
      Insert(addrs[0], Canonicalise(addrs[1..]))
  }

  /** The canonical form depends on the set alone, and is a fixed point. */
  lemma CanonicaliseIsOfTheSet(s: seq<Addr>, t: seq<Addr>)
    ensures Canonicalise(s) == Canonicalise(t) <==> Elements(s) == Elements(t)
    ensures Ascending(s) ==> Canonicalise(s) == s
  {
    if Elements(s) == Elements(t) {
      AscendingUnique(Canonicalise(s), Canonicalise(t));
    }
    if Ascending(s) {
      AscendingUnique(Canonicalise(s), s);
    }
  }
}
