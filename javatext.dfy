/**
 * The few pieces of the Java and JavaScript string libraries that the modelled
 * code relies on, written out so that their edge cases are explicit:
 * code units and the `(char)` cast, 32-bit `int` wrap-around, decimal
 * `Integer.toString` / `Integer.parseInt`, `String.split` on a one-character
 * separator, `lastIndexOf`, `replace` with an empty replacement, and the case
 * rule `Boolean.parseBoolean` uses.
 */
module JavaText {
  import opened Wrappers

  /** A Java `char`: one UTF-16 code unit. */
  type Unit = x: int | 0 <= x < 0x1_0000

  /** Java's `(char) x`: keeps the low 16 bits (two's complement), i.e. x mod 2^16. */
  function ToUnit(x: int): (r: Unit)
    ensures 0 <= x < 0x1_0000 ==> r == x
  {
    x % 0x1_0000
  }

  const IntMin: int := -0x8000_0000
  const IntMax: int := 0x7FFF_FFFF

  predicate IsInt32(x: int) { IntMin <= x <= IntMax }

  /** A value of Java type `int`. */
  type Int32 = x: int | IntMin <= x <= IntMax

  function Max(a: int, b: int): int { if a >= b then a else b }

  function Min(a: int, b: int): int { if a <= b then a else b }

  /** The value a Java `int` expression takes when its mathematical value is x. */
  function Wrap32(x: int): (r: int)
    ensures IsInt32(r)
    ensures (r - x) % 0x1_0000_0000 == 0
    ensures IsInt32(x) ==> r == x
  {
    var m := x % 0x1_0000_0000;
    if m <= IntMax then m else m - 0x1_0000_0000
  }

  // ---------------------------------------------------------------------------
  // Decimal rendering and parsing
  // ---------------------------------------------------------------------------

  predicate IsDigit(c: char) { '0' <= c <= '9' }

  function DigitChar(d: nat): (c: char)
    requires d < 10
    ensures IsDigit(c)
  {
    ['0', '1', '2', '3', '4', '5', '6', '7', '8', '9'][d]
  }

  function DigitValue(c: char): (d: nat)
    requires IsDigit(c)
    ensures d < 10 && DigitChar(d) == c
  {
    c as int - '0' as int
  }

  /** The decimal digits of n, without leading zeros. */
  function NatToString(n: nat): (s: string)
    ensures |s| > 0
    ensures forall k :: 0 <= k < |s| ==> IsDigit(s[k])
    decreases n
  {
    if n < 10 then [DigitChar(n)] else NatToString(n / 10) + [DigitChar(n % 10)]
  }

  /** Java's `Integer.toString(n)` (also what `%d` and string concatenation print). */
  function IntToString(n: int): (s: string)
    ensures |s| > 0
    ensures n >= 0 <==> s[0] != '-'
  {
    if n < 0 then "-" + NatToString(-n) else NatToString(n)
  }

  /** The value of a non-empty string of decimal digits. */
  function DigitsValue(s: string): nat
    requires forall k :: 0 <= k < |s| ==> IsDigit(s[k])
    decreases |s|
  {
    if |s| == 0 then 0 else DigitsValue(s[..|s| - 1]) * 10 + DigitValue(s[|s| - 1])
  }

  predicate AllDigits(s: string) { forall k :: 0 <= k < |s| ==> IsDigit(s[k]) }

  /**
   * Java's `Integer.parseInt(s)`: an optional sign, at least one digit, and a
   * value that fits in an `int`; anything else is a NumberFormatException (None).
   */
  function ParseInt(s: string): (r: Option<int>)
    ensures r.Some? ==> IsInt32(r.value)
    ensures r.Some? ==> |s| > 0
    ensures |s| == 0 || (|s| == 1 && !IsDigit(s[0])) ==> r.None?
  {
    if |s| == 0 then None
    else ParseSigned(s[0] == '-', if s[0] == '-' || s[0] == '+' then s[1..] else s)
  }

  /** What follows the sign: at least one digit, with a value that fits in an `int`. */
  function ParseSigned(negative: bool, body: string): Option<int>
  {
    if |body| == 0 || !AllDigits(body) then None
    else
      var v: int := if negative then 0 - DigitsValue(body) as int else DigitsValue(body);
      if IsInt32(v) then Some(v) else None
  }

  lemma {:induction false} DigitsValueOfNatToString(n: nat)
    ensures DigitsValue(NatToString(n)) == n
    decreases n
  {
    if n >= 10 {
      var s := NatToString(n);
      DigitsValueOfNatToString(n / 10);
      assert s[..|s| - 1] == NatToString(n / 10);
    }
  }

  /** A text made of a sign or not, then digits: what parsing it reads. */
  lemma ParseDigits(s: string, digits: string, negative: bool)
    requires |digits| > 0 && AllDigits(digits)
    requires s == (if negative then "-" + digits else digits)
    ensures ParseInt(s) == ParseSigned(negative, digits)
  {
    if negative {
      assert s[0] == '-' && s[1..] == digits;
    } else {
      assert IsDigit(digits[0]);
    }
  }

  /** Digits of value m, with the sign applied, parse as that value when it fits. */
  lemma ParseSignedOf(negative: bool, digits: string, m: int)
    requires |digits| > 0 && AllDigits(digits) && DigitsValue(digits) == m
    requires IsInt32(if negative then -m else m)
    ensures ParseSigned(negative, digits) == Some(if negative then -m else m)
  {
  }

  /** Parsing what `Integer.toString` printed gives back the same `int`. */
  lemma ParseIntOfIntToString(n: int)
    requires IsInt32(n)
    ensures ParseInt(IntToString(n)) == Some(n)
  {
    var s := IntToString(n);
    if n < 0 {
      var m: nat := -n;
      var digits := NatToString(m);
      DigitsValueOfNatToString(m);
      ParseDigits(s, digits, true);
      ParseSignedOf(true, digits, m);
    } else {
      var digits := NatToString(n);
      DigitsValueOfNatToString(n);
      ParseDigits(s, digits, false);
      ParseSignedOf(false, digits, n);
    }
  }

  // ---------------------------------------------------------------------------
  // Searching
  // ---------------------------------------------------------------------------

  /** `s.indexOf(c)`: the first position of c, or -1. */
  function IndexOf(s: string, c: char): (r: int)
    ensures -1 <= r < |s|
    ensures r == -1 <==> c !in s
    ensures r >= 0 ==> s[r] == c && forall j :: 0 <= j < r ==> s[j] != c
    decreases |s|
  {
    if |s| == 0 then -1
    else if s[0] == c then 0
    else
      var k := IndexOf(s[1..], c);
      if k < 0 then -1 else k + 1
  }

  /** `s.lastIndexOf(c)`: the last position of c, or -1. */
  function LastIndexOf(s: string, c: char): (r: int)
    ensures -1 <= r < |s|
    ensures r == -1 <==> c !in s
    ensures r >= 0 ==> s[r] == c && forall j :: r < j < |s| ==> s[j] != c
    decreases |s|
  {
    if |s| == 0 then -1
    else if s[|s| - 1] == c then |s| - 1
    else
      var k := LastIndexOf(s[..|s| - 1], c);
      assert c in s <==> c in s[..|s| - 1] by {
        assert s == s[..|s| - 1] + [s[|s| - 1]];
      }
      k
  }

  // ---------------------------------------------------------------------------
  // Splitting on one character
  // ---------------------------------------------------------------------------

  /** All pieces of s between occurrences of sep, empty ones included. */
  function Pieces(s: string, sep: char): (r: seq<string>)
    ensures |r| >= 1
    decreases |s|
  {
    if |s| == 0 then [""]
    else
      var rest := Pieces(s[1..], sep);
      if s[0] == sep then [""] + rest else [[s[0]] + rest[0]] + rest[1..]
  }

  /** The pieces put back together with sep between them. */
  function Join(ps: seq<string>, sep: char): string
    decreases |ps|
  {
    if |ps| == 0 then ""
    else if |ps| == 1 then ps[0]
    else ps[0] + [sep] + Join(ps[1..], sep)
  }

  /** `Pieces` loses nothing: joining the pieces with the separator gives s back, and no piece holds the separator. */
  lemma {:induction false} PiecesJoin(s: string, sep: char)
    ensures Join(Pieces(s, sep), sep) == s
    ensures forall k :: 0 <= k < |Pieces(s, sep)| ==> sep !in Pieces(s, sep)[k]
    decreases |s|
  {
    if |s| > 0 {
      PiecesJoin(s[1..], sep);
      var rest := Pieces(s[1..], sep);
      if s[0] == sep {
        assert Pieces(s, sep) == [""] + rest;
        assert Pieces(s, sep)[1..] == rest;
      } else {
        var r := Pieces(s, sep);
        assert r == [[s[0]] + rest[0]] + rest[1..];
        if |rest| > 1 {
          assert r[1..] == rest[1..];
          assert Join(rest, sep) == rest[0] + [sep] + Join(rest[1..], sep);
        }
        forall k | 0 <= k < |r| ensures sep !in r[k] {
          if k > 0 { assert r[k] == rest[k]; }
        }
      }
    }
  }

  /** The first piece is the text before the first separator (all of s when there is none). */
  lemma {:induction false} FirstPiece(s: string, sep: char)
    ensures Pieces(s, sep)[0] == if sep in s then s[..IndexOf(s, sep)] else s
    decreases |s|
  {
    if |s| > 0 && s[0] != sep {
      FirstPiece(s[1..], sep);
      assert sep in s <==> sep in s[1..] by {
        assert s == [s[0]] + s[1..];
      }
      if sep in s {
        var k := IndexOf(s[1..], sep);
        assert IndexOf(s, sep) == k + 1;
        assert s[..k + 1] == [s[0]] + s[1..][..k];
      } else {
        assert s == [s[0]] + s[1..];
      }
    }
  }

  /** A text without separators is a single piece. */
  lemma {:induction false} PiecesWithout(a: string, sep: char)
    requires sep !in a
    ensures Pieces(a, sep) == [a]
    decreases |a|
  {
    if |a| > 0 {
      PiecesWithout(a[1..], sep);
      assert [a[0]] + a[1..] == a;
    }
  }

  /** A separator-free text, a separator, then b: that text is the first piece and b gives the rest. */
  lemma {:induction false} PiecesOfPrefix(a: string, sep: char, b: string)
    requires sep !in a
    ensures Pieces(a + [sep] + b, sep) == [a] + Pieces(b, sep)
    decreases |a|
  {
    var s := a + [sep] + b;
    if |a| == 0 {
      assert s == [sep] + b && s[1..] == b;
    } else {
      PiecesOfPrefix(a[1..], sep, b);
      assert s[0] == a[0] && s[1..] == a[1..] + [sep] + b;
      assert [a[0]] + a[1..] == a;
    }
  }

  /** The converse of PiecesJoin: separator-free pieces are recovered from their join. */
  lemma {:induction false} JoinPieces(ps: seq<string>, sep: char)
    requires |ps| >= 1 && forall k :: 0 <= k < |ps| ==> sep !in ps[k]
    ensures Pieces(Join(ps, sep), sep) == ps
    decreases |ps|
  {
    if |ps| == 1 {
      PiecesWithout(ps[0], sep);
    } else {
      JoinPieces(ps[1..], sep);
      PiecesOfPrefix(ps[0], sep, Join(ps[1..], sep));
      assert [ps[0]] + ps[1..] == ps;
    }
  }

  function DropTrailingEmpty(ps: seq<string>): (r: seq<string>)
    ensures |r| <= |ps| && r == ps[..|r|]
    ensures |r| > 0 ==> r[|r| - 1] != ""
    ensures forall k :: |r| <= k < |ps| ==> ps[k] == ""
    decreases |ps|
  {
    if |ps| > 0 && ps[|ps| - 1] == "" then DropTrailingEmpty(ps[..|ps| - 1]) else ps
  }

  /**
   * Java's `s.split(x)` where x matches exactly the one character sep: when sep
   * does not occur the result is [s] (even for the empty string); otherwise the
   * pieces with every trailing empty piece removed.
   */
  function Split(s: string, sep: char): (r: seq<string>)
    ensures sep !in s ==> r == [s]
    ensures sep in s ==> r == DropTrailingEmpty(Pieces(s, sep))
  {
    if sep in s then DropTrailingEmpty(Pieces(s, sep)) else [s]
  }

  /** Every piece Split returns is a piece of s, in order and without the separator. */
  lemma SplitPiecesArePieces(s: string, sep: char)
    ensures |Split(s, sep)| <= |Pieces(s, sep)|
    ensures Split(s, sep) == Pieces(s, sep)[..|Split(s, sep)|]
    ensures forall k :: 0 <= k < |Split(s, sep)| ==> sep !in Split(s, sep)[k]
  {
    PiecesJoin(s, sep);
    if sep !in s {
      FirstPiece(s, sep);
    }
  }

  // ---------------------------------------------------------------------------
  // Replacing and comparing
  // ---------------------------------------------------------------------------

  /** True when pat occurs in s starting at position k. */
  predicate OccursAt(s: string, pat: string, k: nat)
  {
    k + |pat| <= |s| && s[k..k + |pat|] == pat
  }

  /** `s.replace(pat, "")`: removes the occurrences of pat found left to right, without overlap. */
  function RemoveAll(s: string, pat: string): (r: string)
    requires |pat| > 0
    ensures |r| <= |s|
    decreases |s|
  {
    if |s| < |pat| then s
    else if s[..|pat|] == pat then RemoveAll(s[|pat|..], pat)
    else [s[0]] + RemoveAll(s[1..], pat)
  }

  /** A string in which pat does not occur is left as it is. */
  lemma {:induction false} RemoveAllAbsent(s: string, pat: string)
    requires |pat| > 0
    requires forall k :: 0 <= k <= |s| - |pat| ==> !OccursAt(s, pat, k)
    ensures RemoveAll(s, pat) == s
    decreases |s|
  {
    if |s| >= |pat| {
      assert !OccursAt(s, pat, 0);
      forall k | 0 <= k <= |s[1..]| - |pat| ensures !OccursAt(s[1..], pat, k) {
        assert !OccursAt(s, pat, k + 1);
        assert s[1..][k..k + |pat|] == s[k + 1..k + 1 + |pat|];
      }
      RemoveAllAbsent(s[1..], pat);
    }
  }

  /** Removing from a + pat + b, where the first occurrence of pat is the one after a, keeps a and goes on in b. */
  lemma {:induction false} RemoveAllFirstOccurrence(a: string, pat: string, b: string)
    requires |pat| > 0
    requires forall k :: 0 <= k < |a| ==> !OccursAt(a + pat + b, pat, k)
    ensures RemoveAll(a + pat + b, pat) == a + RemoveAll(b, pat)
    decreases |a|
  {
    if |a| == 0 {
      var s := a + pat + b;
      assert s == pat + b;
      assert s[..|pat|] == pat;
      assert s[|pat|..] == b;
    } else {
      NoOccurrenceAfterFirst(a, pat, b);
      RemoveAllFirstOccurrence(a[1..], pat, b);
      RemoveAllKeepsFirst(a, pat, b);
      assert a == [a[0]] + a[1..];
    }
  }

  /** No occurrence in the first |a| positions of a + pat + b means none in the first |a| - 1 of a[1..] + pat + b. */
  lemma NoOccurrenceAfterFirst(a: string, pat: string, b: string)
    requires |a| > 0
    requires forall k :: 0 <= k < |a| ==> !OccursAt(a + pat + b, pat, k)
    ensures forall k :: 0 <= k < |a[1..]| ==> !OccursAt(a[1..] + pat + b, pat, k)
  {
    var s := a + pat + b;
    var t := a[1..] + pat + b;
    forall k | 0 <= k < |a[1..]| ensures !OccursAt(t, pat, k) {
      assert !OccursAt(s, pat, k + 1);
      assert t[k..k + |pat|] == s[k + 1..k + 1 + |pat|];
    }
  }

  /** Where pat does not start a + pat + b, the first character of a is kept. */
  lemma RemoveAllKeepsFirst(a: string, pat: string, b: string)
    requires |pat| > 0 && |a| > 0 && !OccursAt(a + pat + b, pat, 0)
    ensures RemoveAll(a + pat + b, pat) == [a[0]] + RemoveAll(a[1..] + pat + b, pat)
  {
    var s := a + pat + b;
    assert s[1..] == a[1..] + pat + b;
  }

  function ToLowerAscii(c: char): (r: char)
    ensures 'A' <= c <= 'Z' ==> r as int == c as int + 32
    ensures !('A' <= c <= 'Z') ==> r == c
  {
    if 'A' <= c <= 'Z' then (c as int + 32) as char else c
  }

  /** `a.equalsIgnoreCase(b)` for the ASCII letters; every other character must match exactly. */
  predicate EqualsIgnoreCase(a: string, b: string)
  {
    |a| == |b| && forall k :: 0 <= k < |a| ==> ToLowerAscii(a[k]) == ToLowerAscii(b[k])
  }

  /** Lines, each ended by a '\n'. */
  function Terminated(lines: seq<string>): string
    decreases |lines|
  {
    if |lines| == 0 then "" else lines[0] + "\n" + Terminated(lines[1..])
  }

  lemma {:induction false} TerminatedAppend(a: seq<string>, b: seq<string>)
    ensures Terminated(a + b) == Terminated(a) + Terminated(b)
    decreases |a|
  {
    if |a| > 0 {
      assert (a + b)[0] == a[0];
      assert (a + b)[1..] == a[1..] + b;
      TerminatedAppend(a[1..], b);
    } else {
      assert a + b == b;
    }
  }

  lemma TerminatedSnoc(a: seq<string>, line: string)
    ensures Terminated(a + [line]) == Terminated(a) + (line + "\n")
  {
    TerminatedAppend(a, [line]);
    assert Terminated([line]) == line + "\n" + Terminated([]);
  }

  /** Lines ended by '\n' are the pieces of their text, with one empty piece after the last. */
  lemma {:induction false} TerminatedIsJoin(lines: seq<string>)
    ensures Terminated(lines) == Join(lines + [""], '\n')
    decreases |lines|
  {
    if |lines| > 0 {
      TerminatedIsJoin(lines[1..]);
      assert (lines + [""])[1..] == lines[1..] + [""];
    }
  }
}
