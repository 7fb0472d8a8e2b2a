/**
 * How `git ls-tree` prints a path when it is not asked for `-z` and `core.quotePath` has its
 * default: an unusual octet anywhere puts the whole path in quotes, escaped as in C. This is
 * the text `ls_tree` takes for the path (crates/nas-cli/src/mirror.rs:429-446).
 */
module GitPaths {
  import opened Bytes

  const QUOTE: byte := 0x22
  const BACKSLASH: byte := 0x5C

  predicate Unusual(b: byte) {
    b < 0x20 || b >= 0x7F || b == QUOTE || b == BACKSLASH
  }

  predicate Usual(path: Bytes) {
    forall i | 0 <= i < |path| :: !Unusual(path[i])
  }

  /** The one-letter escape of an octet, or 0. */
  function Letter(b: byte): byte {
    if b == 0x07 then 0x61
    else if b == 0x08 then 0x62
    else if b == 0x09 then 0x74
    else if b == 0x0A then 0x6E
    else if b == 0x0B then 0x76
    else if b == 0x0C then 0x66
    else if b == 0x0D then 0x72
    else if b == QUOTE || b == BACKSLASH then b
    else 0
  }

  function Escape(b: byte): (e: Bytes)
    ensures e != []
  {
    if !Unusual(b) then [b]
    else if Letter(b) != 0 then [BACKSLASH, Letter(b)]
    else [BACKSLASH, 0x30 + b / 64, 0x30 + b / 8 % 8, 0x30 + b % 8]
  }

  function Escapes(path: Bytes): Bytes {
    if path == [] then [] else Escape(path[0]) + Escapes(path[1..])
  }

  function Printed(path: Bytes): Bytes {
    if Usual(path) then path else [QUOTE] + Escapes(path) + [QUOTE]
  }

  /** The octet whose escape opens a text. */
  function FirstOctet(s: Bytes): int
    requires |s| >= 4
  {
    var x: int, y: int, z: int := s[1], s[2], s[3];
    if s[0] != BACKSLASH then s[0]
    else if 0x30 <= x <= 0x37 then (x - 0x30) * 64 + (y - 0x30) * 8 + (z - 0x30)
    else if s[1] == 0x61 then 0x07
    else if s[1] == 0x62 then 0x08
    else if s[1] == 0x74 then 0x09
    else if s[1] == 0x6E then 0x0A
    else if s[1] == 0x76 then 0x0B
    else if s[1] == 0x66 then 0x0C
    else if s[1] == 0x72 then 0x0D
    else s[1]
  }

  lemma FirstOctetIs(b: byte, x: Bytes)
    requires |Escape(b) + x| >= 4
    ensures FirstOctet(Escape(b) + x) == b
  {
    var s := Escape(b) + x;
    if Unusual(b) && Letter(b) == 0 {
      assert s[1] == 0x30 + b / 64 && s[2] == 0x30 + b / 8 % 8 && s[3] == 0x30 + b % 8;
    }
  }

  lemma EscapeOnce(b: byte, x: Bytes, c: byte, y: Bytes)
    requires Escape(b) + x == Escape(c) + y
    ensures b == c && x == y
  {
    hide Escape, FirstOctet;
    var pad := [0, 0, 0, 0];
    assert Escape(b) + (x + pad) == Escape(c) + (y + pad) by {
      assert Escape(b) + (x + pad) == (Escape(b) + x) + pad && Escape(c) + (y + pad) == (Escape(c) + y) + pad;
    }
    FirstOctetIs(b, x + pad);
    FirstOctetIs(c, y + pad);
    assert (Escape(b) + x)[|Escape(b)|..] == x && (Escape(c) + y)[|Escape(c)|..] == y;
  }

  lemma {:induction false} EscapesInjective(p: Bytes, q: Bytes)
    requires Escapes(p) == Escapes(q)
    ensures p == q
  {
    hide Escape;
    if p != [] && q != [] {
      EscapeOnce(p[0], Escapes(p[1..]), q[0], Escapes(q[1..]));
      EscapesInjective(p[1..], q[1..]);
      assert p == [p[0]] + p[1..] && q == [q[0]] + q[1..];
    }
  }

  lemma {:induction false} EscapesGrow(p: Bytes)
    ensures |Escapes(p)| >= |p|
  {
    hide Escape;
    if p != [] {
      EscapesGrow(p[1..]);
    }
  }

  /** A quoted path opens with a quote, is longer than the path, and would itself be quoted. */
  lemma QuotedShape(p: Bytes)
    requires !Usual(p)
    ensures |Printed(p)| > |p| && Printed(p)[0] == QUOTE && !Usual(Printed(p))
  {
    EscapesGrow(p);
    assert Unusual(Printed(p)[0]);
  }

  /** Distinct paths print differently, and a path prints as itself exactly when nothing in it is unusual. */
  lemma PrintedInjective(p: Bytes, q: Bytes)
    ensures Printed(p) == Printed(q) <==> p == q
    ensures Printed(p) == p <==> Usual(p)
  {
    if !Usual(p) { QuotedShape(p); }
    if !Usual(q) { QuotedShape(q); }
    if Printed(p) == Printed(q) && !Usual(p) && !Usual(q) {
      var s, t := Printed(p), Printed(q);
      assert s[1..|s| - 1] == Escapes(p) && t[1..|t| - 1] == Escapes(q);
      EscapesInjective(p, q);
    }
  }

  lemma PrintedApart()
    ensures forall p, q | Printed(p) == Printed(q) :: p == q
  {
    forall p, q | Printed(p) == Printed(q) ensures p == q {
      PrintedInjective(p, q);
    }
  }

  lemma {:induction false} EscapesPlain(p: Bytes)
    ensures forall x | x in Escapes(p) :: 0x20 <= x < 0x7F
  {
    if p != [] {
      EscapesPlain(p[1..]);
      assert forall x | x in Escape(p[0]) :: 0x20 <= x < 0x7F;
    }
  }

  /**
   * A printed path is printable ASCII: cutting the listing into lines, splitting at the
   * tab and decoding it as UTF-8 give back the very text git printed.
   */
  lemma PrintedIsPlain(p: Bytes)
    ensures forall x | x in Printed(p) :: 0x20 <= x < 0x7F
  {
    EscapesPlain(p);
    forall x | x in Printed(p) ensures 0x20 <= x < 0x7F {
      if Usual(p) {
        var i :| 0 <= i < |p| && p[i] == x;
        assert !Unusual(p[i]);
      } else {
        assert x == QUOTE || x in Escapes(p);
      }
    }
  }

  /** Escaping adds only backslashes, quotes, letters and digits. */
  lemma {:induction false} EscapesAvoid(p: Bytes, x: byte)
    requires 0x23 <= x < 0x30 || x == 0x3F
    ensures x in Escapes(p) <==> x in p
  {
    if p != [] {
      EscapesAvoid(p[1..], x);
      assert x in Escape(p[0]) <==> x == p[0];
      assert x in p <==> x == p[0] || x in p[1..];
    }
  }

  /** A path is printed as it is exactly when it is printable ASCII without quotes and backslashes. */
  lemma UsualIff(p: Bytes)
    ensures Printed(p) == p <==> forall b | b in p :: 0x20 <= b <= 0x7E && b != 0x22 && b != 0x5C
  {
    PrintedInjective(p, p);
    if Usual(p) {
      forall b | b in p ensures 0x20 <= b <= 0x7E && b != 0x22 && b != 0x5C {
        var i :| 0 <= i < |p| && p[i] == b;
        assert !Unusual(p[i]);
      }
    } else {
      var i :| 0 <= i < |p| && Unusual(p[i]);
      assert p[i] in p;
    }
  }

  /** The escapes of C: a letter for the seven named controls, three octal digits for what has none. */
  lemma EscapeForms()
    ensures Escape(0x07) == [0x5C, 0x61] && Escape(0x08) == [0x5C, 0x62] && Escape(0x09) == [0x5C, 0x74] && Escape(0x0A) == [0x5C, 0x6E]
    ensures Escape(0x0B) == [0x5C, 0x76] && Escape(0x0C) == [0x5C, 0x66] && Escape(0x0D) == [0x5C, 0x72]
    ensures Escape(0x22) == [0x5C, 0x22] && Escape(0x5C) == [0x5C, 0x5C]
    ensures Escape(0x1B) == [0x5C, 0x30, 0x33, 0x33] && Escape(0x7F) == [0x5C, 0x31, 0x37, 0x37]
    ensures Escape(0xC3) == [0x5C, 0x33, 0x30, 0x33] && Escape(0xA9) == [0x5C, 0x32, 0x35, 0x31]
  {
  }
}
