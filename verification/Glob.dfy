/** Exclusion globs (crates/nas-cli/src/mirror.rs:241-298). */
module Glob {
  import opened Bytes

  const SLASH: byte := 0x2F
  const STAR: byte := 0x2A
  const QUESTION: byte := 0x3F

  // ---- Segments

  /** Index of the first slash, or the length. */
  function FirstSlash(p: Bytes): (n: nat)
    ensures n <= |p| && SLASH !in p[..n] && (n < |p| ==> p[n] == SLASH)
  {
    if p == [] || p[0] == SLASH then 0 else
      assert p[..1 + FirstSlash(p[1..])] == [p[0]] + p[1..][..FirstSlash(p[1..])];
      1 + FirstSlash(p[1..])
  }

  /** `split('/')` without the empty pieces. */
  function Segments(p: Bytes): (r: seq<Bytes>)
    ensures forall s | s in r :: s != [] && SLASH !in s
    decreases |p|
  {
    if p == [] then [] else
      var n := FirstSlash(p);
      var rest := if n < |p| then Segments(p[n + 1..]) else [];
      if n == 0 then rest else [p[..n]] + rest
  }

  /** One segment, unless it is empty. */
  function Piece(s: Bytes): seq<Bytes> {
    if s == [] then [] else [s]
  }

  lemma SegmentsFrom(p: Bytes, n: nat)
    requires n <= |p| && SLASH !in p[..n] && (n < |p| ==> p[n] == SLASH)
    ensures Segments(p) == Piece(p[..n]) + if n < |p| then Segments(p[n + 1..]) else []
  {
    assert FirstSlash(p) == n;
  }

  /**
   * A slash anywhere is a boundary and nothing else. Together with the contract of
   * Segments this determines it: leading, trailing and repeated slashes do not matter.
   */
  lemma {:induction false} SegmentsAtSlash(a: Bytes, b: Bytes)
    ensures Segments(a + [SLASH] + b) == Segments(a) + Segments(b)
    decreases |a|
  {
    hide Segments, FirstSlash, Piece;
    var p := a + [SLASH] + b;
    var n := FirstSlash(a);
    assert p[..n] == a[..n] && p[n] == SLASH;
    SegmentsFrom(p, n);
    SegmentsFrom(a, n);
    if n < |a| {
      SegmentsAtSlash(a[n + 1..], b);
      assert p[n + 1..] == a[n + 1..] + [SLASH] + b;
    } else {
      assert p[n + 1..] == b;
    }
  }

  // ---- The matchers

  /** `glob_seg`. */
  predicate GlobSeg(pat: Bytes, seg: Bytes)
    decreases |pat| + |seg|
  {
    if pat == [] then seg == []
    else if pat[0] == STAR then GlobSeg(pat[1..], seg) || (seg != [] && GlobSeg(pat, seg[1..]))
    else if seg == [] then false
    else if pat[0] == QUESTION || pat[0] == seg[0] then GlobSeg(pat[1..], seg[1..])
    else false
  }

  /** `seg_match`: plain equality when there is no wildcard. */
  predicate SegMatch(pat: Bytes, seg: Bytes) {
    if STAR !in pat && QUESTION !in pat then pat == seg else GlobSeg(pat, seg)
  }

  predicate AnyDepth(p: Bytes) {
    p == [STAR, STAR]
  }

  /** `glob_rec`. */
  predicate GlobRec(pat: seq<Bytes>, path: seq<Bytes>)
    decreases |pat| + |path|
  {
    if pat == [] then path == []
    else if AnyDepth(pat[0]) then GlobRec(pat[1..], path) || (path != [] && GlobRec(pat, path[1..]))
    else path != [] && SegMatch(pat[0], path[0]) && GlobRec(pat[1..], path[1..])
  }

  predicate GlobMatch(pat: Bytes, path: Bytes) {
    GlobRec(Segments(pat), Segments(path))
  }

  predicate Excluded(path: Bytes, globs: seq<Bytes>) {
    exists g :: g in globs && GlobMatch(g, path)
  }

  // ---- What a pattern means

  /** The concatenation of some pieces. */
  function Flat<T>(parts: seq<seq<T>>): seq<T> {
    if parts == [] then [] else parts[0] + Flat(parts[1..])
  }

  /**
   * The pieces fit the pattern one to one: a star takes any piece, and anything else a
   * piece of exactly one item that it accepts.
   */
  ghost predicate Fit<P(!new), T(!new)>(pat: seq<P>, parts: seq<seq<T>>, star: P -> bool, one: (P, T) -> bool) {
    && |parts| == |pat|
    && forall i | 0 <= i < |pat| :: star(pat[i]) || (|parts[i]| == 1 && one(pat[i], parts[i][0]))
  }

  /** The text splits into pieces that fit. */
  ghost predicate Means<P(!new), T(!new)>(pat: seq<P>, s: seq<T>, star: P -> bool, one: (P, T) -> bool) {
    exists parts :: Fit(pat, parts, star, one) && Flat(parts) == s
  }

  /** The backtracking matcher both source functions are instances of. */
  ghost predicate Wild<P(!new), T(!new)>(pat: seq<P>, s: seq<T>, star: P -> bool, one: (P, T) -> bool)
    decreases |pat| + |s|
  {
    if pat == [] then s == []
    else if star(pat[0]) then Wild(pat[1..], s, star, one) || (s != [] && Wild(pat, s[1..], star, one))
    else s != [] && one(pat[0], s[0]) && Wild(pat[1..], s[1..], star, one)
  }

  lemma {:induction false} WildSplits<P(!new), T(!new)>(pat: seq<P>, s: seq<T>, star: P -> bool, one: (P, T) -> bool)
    returns (parts: seq<seq<T>>)
    requires Wild(pat, s, star, one)
    ensures Fit(pat, parts, star, one) && Flat(parts) == s
    decreases |pat| + |s|
  {
    if pat == [] {
      parts := [];
    } else if star(pat[0]) && Wild(pat[1..], s, star, one) {
      var rest := WildSplits(pat[1..], s, star, one);
      parts := [[]] + rest;
    } else if star(pat[0]) {
      var rest := WildSplits(pat, s[1..], star, one);
      parts := [[s[0]] + rest[0]] + rest[1..];
      assert Flat(parts) == [s[0]] + (rest[0] + Flat(rest[1..]));
      assert forall i | 1 <= i < |pat| :: parts[i] == rest[i];
    } else {
      var rest := WildSplits(pat[1..], s[1..], star, one);
      parts := [[s[0]]] + rest;
    }
  }

  lemma {:induction false} SplitsWild<P(!new), T(!new)>(pat: seq<P>, parts: seq<seq<T>>, star: P -> bool, one: (P, T) -> bool)
    requires Fit(pat, parts, star, one)
    ensures Wild(pat, Flat(parts), star, one)
    decreases |pat| + |Flat(parts)|
  {
    if pat != [] {
      var s := Flat(parts);
      if parts[0] == [] {
        assert s == Flat(parts[1..]);
        SplitsWild(pat[1..], parts[1..], star, one);
      } else if star(pat[0]) {
        var less := [parts[0][1..]] + parts[1..];
        assert s[1..] == parts[0][1..] + Flat(parts[1..]) == Flat(less);
        SplitsWild(pat, less, star, one);
      } else {
        assert s[1..] == Flat(parts[1..]);
        SplitsWild(pat[1..], parts[1..], star, one);
      }
    }
  }

  lemma WildMeans<P(!new), T(!new)>(pat: seq<P>, s: seq<T>, star: P -> bool, one: (P, T) -> bool)
    ensures Wild(pat, s, star, one) <==> Means(pat, s, star, one)
  {
    if Wild(pat, s, star, one) {
      var _ := WildSplits(pat, s, star, one);
    }
    if Means(pat, s, star, one) {
      var parts :| Fit(pat, parts, star, one) && Flat(parts) == s;
      SplitsWild(pat, parts, star, one);
    }
  }

  predicate IsStar(b: byte) {
    b == STAR
  }

  predicate OneByte(p: byte, b: byte) {
    p == QUESTION || p == b
  }

  lemma {:induction false} GlobSegIsWild(pat: Bytes, seg: Bytes)
    ensures GlobSeg(pat, seg) == Wild(pat, seg, IsStar, OneByte)
    decreases |pat| + |seg|
  {
    if pat != [] {
      GlobSegIsWild(pat[1..], seg);
      if seg != [] {
        GlobSegIsWild(pat, seg[1..]);
        GlobSegIsWild(pat[1..], seg[1..]);
      }
    }
  }

  lemma {:induction false} PlainIsEquality(pat: Bytes, seg: Bytes)
    requires STAR !in pat && QUESTION !in pat
    ensures GlobSeg(pat, seg) <==> pat == seg
  {
    if pat != [] && seg != [] {
      PlainIsEquality(pat[1..], seg[1..]);
      assert pat == [pat[0]] + pat[1..] && seg == [seg[0]] + seg[1..];
    }
  }

  /**
   * Within a segment: it matches exactly when it splits so that each `*` takes any octets,
   * each `?` one octet, and each other octet itself. The equality shortcut agrees.
   */
  lemma SegMatchMeaning(pat: Bytes, seg: Bytes)
    ensures SegMatch(pat, seg) <==> Means(pat, seg, IsStar, OneByte)
  {
    GlobSegIsWild(pat, seg);
    WildMeans(pat, seg, IsStar, OneByte);
    if STAR !in pat && QUESTION !in pat {
      PlainIsEquality(pat, seg);
    }
  }

  lemma {:induction false} GlobRecIsWild(pat: seq<Bytes>, path: seq<Bytes>)
    ensures GlobRec(pat, path) == Wild(pat, path, AnyDepth, SegMatch)
    decreases |pat| + |path|
  {
    if pat != [] {
      GlobRecIsWild(pat[1..], path);
      if path != [] {
        GlobRecIsWild(pat, path[1..]);
        GlobRecIsWild(pat[1..], path[1..]);
      }
    }
  }

  /**
   * Across segments: a path matches exactly when its segments split so that each `**`
   * takes zero or more of them and every other pattern segment exactly one it matches.
   */
  lemma GlobMatchMeaning(pat: Bytes, path: Bytes)
    ensures GlobMatch(pat, path) <==> Means(Segments(pat), Segments(path), AnyDepth, SegMatch)
  {
    GlobRecIsWild(Segments(pat), Segments(path));
    WildMeans(Segments(pat), Segments(path), AnyDepth, SegMatch);
  }

  // ---- Rules for whole directories

  /** One path segment without wildcards. */
  predicate PlainName(name: Bytes) {
    name != [] && SLASH !in name && STAR !in name && QUESTION !in name
  }

  lemma SegmentsOfOne(s: Bytes)
    requires SLASH !in s
    ensures Segments(s) == Piece(s)
  {
    assert s[..|s|] == s;
    SegmentsFrom(s, |s|);
  }

  lemma FirstSegment(path: Bytes)
    requires path != [] && path[0] != SLASH
    ensures Segments(path) != [] && Segments(path)[0] != [] && Segments(path)[0][0] == path[0]
  {
  }

  lemma {:induction false} AnyDepthTakesAll(path: seq<Bytes>)
    ensures GlobRec([[STAR, STAR]], path)
  {
    var all: seq<Bytes> := [[STAR, STAR]];
    if path != [] {
      AnyDepthTakesAll(path[1..]);
    } else {
      assert GlobRec(all[1..], path);
    }
  }

  // The rule for all of a directory: its name, a slash and two stars.
  function Under(name: Bytes): Bytes {
    name + [SLASH] + [STAR, STAR]
  }

  /** A directory rule matches exactly the paths whose first segment is the directory. */
  lemma UnderIff(name: Bytes, path: Bytes)
    requires PlainName(name)
    ensures GlobMatch(Under(name), path) <==> Segments(path) != [] && Segments(path)[0] == name
  {
    hide Segments;
    SegmentsAtSlash(name, [STAR, STAR]);
    SegmentsOfOne(name);
    SegmentsOfOne([STAR, STAR]);
    var pat: seq<Bytes> := [name, [STAR, STAR]];
    assert Segments(Under(name)) == pat && pat[1..] == [[STAR, STAR]] && !AnyDepth(name);
    if Segments(path) != [] {
      AnyDepthTakesAll(Segments(path)[1..]);
    }
  }

  /** A name without wildcards matches exactly itself. */
  lemma LiteralIff(name: Bytes, path: Bytes)
    requires PlainName(name) && PlainName(path)
    ensures GlobMatch(name, path) <==> name == path
  {
    hide Segments;
    SegmentsOfOne(name);
    SegmentsOfOne(path);
    var pat: seq<Bytes>, segs: seq<Bytes> := [name], [path];
    assert Segments(name) == pat && Segments(path) == segs && !AnyDepth(name);
    assert pat[1..] == [] && segs[1..] == [] && GlobRec(pat[1..], segs[1..]);
  }
}
