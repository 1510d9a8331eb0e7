/**
 * `LZ77.compress`: sliding-window compression of the UTF-8 re-encoding of a
 * text into three-unit tokens (distance, length, next unit).
 *
 * For every position i the candidates are the earlier positions s of the
 * window holding the same unit as position i, scanned with ascending s; a
 * candidate replaces the best one only when its match is strictly longer, so
 * of equally long matches the earliest (most distant) one wins. A match token
 * covers its length plus the following unit, which is sent as the third unit
 * of the token, or 0xFF when the match reaches the end of the input.
 *
 * The functions below state what the two loops of the source compute; the
 * methods `GetMatchedLen` and `Compress` are those loops, proved to compute
 * exactly that; the lemmas state what the tokens mean (each one reconstructs a
 * slice of the input) and that decoding the token stream gives the input back.
 */
module Lz77 {
  import opened Wrappers
  import opened JavaText
  import Strings

  const DefaultWindowSize: Int32 := 8192

  /** The third unit of a match token that reaches the end of the input. */
  const EndMarker: Unit := 0xFF

  /** `args.length > 0 ? (int) args[0] : DEFAULT_WINDOW_SIZE` */
  function WindowSize(windowArg: Option<Int32>): Int32
  {
    if windowArg.Some? then windowArg.value else DefaultWindowSize
  }

  /** `Math.max(0, i - windowSize)`, with the subtraction done in 32-bit `int` arithmetic. */
  function WindowStart(i: nat, w: Int32): nat
  {
    Max(0, Wrap32(i - w))
  }

  lemma WindowStartOfNonNegative(i: nat, w: Int32)
    requires 0 <= w && i <= IntMax
    ensures WindowStart(i, w) == Max(0, i - w)
    ensures i - WindowStart(i, w) <= w
  {
  }

  // ---------------------------------------------------------------------------
  // getMatchedLen
  // ---------------------------------------------------------------------------

  /** How many leading units of src[a..] and src[b..] agree, looking at no more than k of them. */
  function CommonRun(src: seq<Unit>, a: nat, b: nat, k: int): (r: nat)
    requires a + Max(0, k) <= |src| && b + Max(0, k) <= |src|
    ensures r <= Max(0, k)
    decreases k
  {
    if k <= 0 || src[a] != src[b] then 0 else 1 + CommonRun(src, a + 1, b + 1, k - 1)
  }

  /** The run is a common prefix, and it stops at a mismatch unless it used up all k units. */
  lemma {:induction false} CommonRunMeaning(src: seq<Unit>, a: nat, b: nat, k: int)
    requires a + Max(0, k) <= |src| && b + Max(0, k) <= |src|
    ensures src[a..a + CommonRun(src, a, b, k)] == src[b..b + CommonRun(src, a, b, k)]
    ensures CommonRun(src, a, b, k) < k ==>
      src[a + CommonRun(src, a, b, k)] != src[b + CommonRun(src, a, b, k)]
    decreases k
  {
    if k > 0 && src[a] == src[b] {
      CommonRunMeaning(src, a + 1, b + 1, k - 1);
      var t := CommonRun(src, a + 1, b + 1, k - 1);
      assert CommonRun(src, a, b, k) == 1 + t;
      SlicesAgreeCons(src, a, b, t);
    } else {
      assert CommonRun(src, a, b, k) == 0;
    }
  }

  /** Two slices agree when their first units do and the rest agree. */
  lemma SlicesAgreeCons(s: seq<Unit>, a: nat, b: nat, t: nat)
    requires a + 1 + t <= |s| && b + 1 + t <= |s| && s[a] == s[b]
    requires s[a + 1..a + 1 + t] == s[b + 1..b + 1 + t]
    ensures s[a..a + 1 + t] == s[b..b + 1 + t]
  {
    assert s[a..a + 1 + t] == [s[a]] + s[a + 1..a + 1 + t];
    assert s[b..b + 1 + t] == [s[b]] + s[b + 1..b + 1 + t];
  }

  /**
   * `getMatchedLen(src, i1, i2, end)`: compares src[i1..] with src[i2..] over
   * k = min(i2 - i1, end - i2) units and answers the index of the first
   * mismatch; when all k units agree it answers 0, not k.
   */
  function MatchedLen(src: seq<Unit>, i1: nat, i2: nat, end: nat): (r: nat)
    requires i1 <= i2 <= end <= |src|
    ensures r < Max(1, Min(i2 - i1, end - i2))
  {
    var k := Max(0, Min(i2 - i1, end - i2));
    var run := CommonRun(src, i1, i2, k);
    if run == k then 0 else run
  }

  /**
   * The answer is a common prefix of the two ranges followed by a mismatch,
   * or 0, and it is 0 exactly when the range is empty, the first units differ,
   * or the whole range agrees.
   */
  lemma MatchedLenMeaning(src: seq<Unit>, i1: nat, i2: nat, end: nat)
    requires i1 <= i2 <= end <= |src|
    ensures var r := MatchedLen(src, i1, i2, end);
            var k := Max(0, Min(i2 - i1, end - i2));
            && src[i1..i1 + r] == src[i2..i2 + r]
            && (r > 0 ==> src[i1 + r] != src[i2 + r])
            && (r == 0 <==> (k == 0 || src[i1] != src[i2] || src[i1..i1 + k] == src[i2..i2 + k]))
  {
    var k := Max(0, Min(i2 - i1, end - i2));
    CommonRunMeaning(src, i1, i2, k);
    var run := CommonRun(src, i1, i2, k);
    if run < k {
      assert src[i1..i1 + k][run] != src[i2..i2 + k][run];
    }
  }

  /** The loop of `getMatchedLen`. */
  method GetMatchedLen(src: seq<Unit>, i1: nat, i2: nat, end: nat) returns (r: nat)
    requires i1 <= i2 <= end <= |src|
    ensures r == MatchedLen(src, i1, i2, end)
  {
    var n := Min(i2 - i1, end - i2);
    ghost var k := Max(0, n);
    var a, b := i1, i2;
    var i := 0;
    while i < n
      invariant 0 <= i <= k
      invariant a == i1 + i && b == i2 + i
      invariant CommonRun(src, i1, i2, k) == i + CommonRun(src, a, b, k - i)
    {
      if src[a] != src[b] {
        return i;
      }
      a, b := a + 1, b + 1;
      i := i + 1;
    }
    return 0;
  }

  // ---------------------------------------------------------------------------
  // Choosing the match at one position
  // ---------------------------------------------------------------------------

  /** The match length the source reports for candidate s at position i (`getMatchedLen(in, s + 1, i + 1, n) + 1`). */
  function CandidateLen(inp: seq<Unit>, i: nat, s: nat): (len: nat)
    requires s < i < |inp|
    ensures 1 <= len <= i - s && i + len <= |inp|
  {
    MatchedLen(inp, s + 1, i + 1, |inp|) + 1
  }

  /** A candidate's reported length is a genuine match: that many units at s equal those at i. */
  lemma CandidateLenMeaning(inp: seq<Unit>, i: nat, s: nat)
    requires s < i < |inp| && inp[s] == inp[i]
    ensures var len := CandidateLen(inp, i, s);
            inp[s..s + len] == inp[i..i + len]
  {
    var r := MatchedLen(inp, s + 1, i + 1, |inp|);
    MatchedLenMeaning(inp, s + 1, i + 1, |inp|);
    assert inp[s..s + 1 + r] == [inp[s]] + inp[s + 1..s + 1 + r];
    assert inp[i..i + 1 + r] == [inp[i]] + inp[i + 1..i + 1 + r];
  }

  predicate IsCandidate(inp: seq<Unit>, i: nat, s: nat)
    requires i < |inp|
  {
    s < i && inp[s] == inp[i]
  }

  /** The state of the inner loop (`found`, `start`, `matchLen`) after scanning the candidates in [lo, hi). */
  datatype Scan = Scan(found: bool, start: nat, len: nat)

  /**
   * The inner loop's result over [lo, hi): whether some candidate was met and,
   * if so, the distance and length of the first among the longest.
   */
  function ScanWindow(inp: seq<Unit>, i: nat, lo: nat, hi: nat): (r: Scan)
    requires i < |inp| && hi <= i
    decreases hi
  {
    if hi <= lo then Scan(false, 0, 0) else ScanStep(inp, i, ScanWindow(inp, i, lo, hi - 1), hi - 1)
  }

  /** The chosen start is a candidate of the range and the length is its reported match length. */
  lemma {:induction false} ScanWindowChosen(inp: seq<Unit>, i: nat, lo: nat, hi: nat)
    requires i < |inp| && hi <= i
    ensures var r := ScanWindow(inp, i, lo, hi);
            && (r.found ==> lo <= i - r.start < hi && 1 <= r.start
                            && IsCandidate(inp, i, i - r.start)
                            && r.len == CandidateLen(inp, i, i - r.start))
            && (!r.found ==> r.len == 0)
    decreases hi
  {
    if hi > lo {
      ScanWindowChosen(inp, i, lo, hi - 1);
    }
  }

  lemma ScanWindowNext(inp: seq<Unit>, i: nat, lo: nat, s: nat)
    requires lo <= s < i < |inp|
    ensures ScanWindow(inp, i, lo, s + 1) == ScanStep(inp, i, ScanWindow(inp, i, lo, s), s)
  {
  }

  /** One iteration of the inner loop: candidate s replaces the best so far only with a strictly longer match. */
  function ScanStep(inp: seq<Unit>, i: nat, b: Scan, s: nat): Scan
    requires s < i < |inp|
  {
    if inp[s] == inp[i] then
      var len := CandidateLen(inp, i, s);
      if len > b.len then Scan(true, i - s, len) else Scan(true, b.start, b.len)
    else b
  }

  /** A candidate was met exactly when the range holds one. */
  lemma {:induction false} ScanWindowFound(inp: seq<Unit>, i: nat, lo: nat, hi: nat)
    requires i < |inp| && hi <= i
    ensures ScanWindow(inp, i, lo, hi).found <==> exists s :: lo <= s < hi && IsCandidate(inp, i, s)
    decreases hi
  {
    if hi > lo {
      ScanWindowFound(inp, i, lo, hi - 1);
      if IsCandidate(inp, i, hi - 1) {
        assert ScanWindow(inp, i, lo, hi).found;
      } else {
        assert ScanWindow(inp, i, lo, hi) == ScanWindow(inp, i, lo, hi - 1);
      }
    }
  }

  /** No candidate in the range has a longer match than the chosen one. */
  lemma {:induction false} ScanWindowLongest(inp: seq<Unit>, i: nat, lo: nat, hi: nat, s: nat)
    requires i < |inp| && hi <= i
    requires lo <= s < hi && IsCandidate(inp, i, s)
    ensures CandidateLen(inp, i, s) <= ScanWindow(inp, i, lo, hi).len
    decreases hi
  {
    var b := ScanWindow(inp, i, lo, hi - 1);
    if s < hi - 1 {
      ScanWindowLongest(inp, i, lo, hi - 1, s);
    }
  }

  /** Every candidate before the chosen one has a strictly shorter match: ties go to the earliest. */
  lemma {:induction false} ScanWindowEarliest(inp: seq<Unit>, i: nat, lo: nat, hi: nat, s: nat)
    requires i < |inp| && hi <= i
    requires ScanWindow(inp, i, lo, hi).found
    requires lo <= s < i - ScanWindow(inp, i, lo, hi).start && IsCandidate(inp, i, s)
    ensures CandidateLen(inp, i, s) < ScanWindow(inp, i, lo, hi).len
    decreases hi
  {
    var b := ScanWindow(inp, i, lo, hi - 1);
    var last := hi - 1;
    ScanWindowChosen(inp, i, lo, hi - 1);
    if IsCandidate(inp, i, last) && CandidateLen(inp, i, last) > b.len {
      ScanWindowFound(inp, i, lo, hi - 1);
      ScanWindowLongest(inp, i, lo, hi - 1, s);
    } else {
      assert ScanWindow(inp, i, lo, hi) == b;
      ScanWindowEarliest(inp, i, lo, hi - 1, s);
    }
  }

  // ---------------------------------------------------------------------------
  // Tokens
  // ---------------------------------------------------------------------------

  /** One output token before its first two fields are cast to `char`. */
  datatype Token = Token(distance: nat, length: nat, next: Unit)
  {
    predicate IsLiteral() { distance == 0 }
  }

  /** The unit at position k, or the end marker past the end of the input. */
  function UnitAfter(inp: seq<Unit>, k: nat): Unit
  {
    if k < |inp| then inp[k] else EndMarker
  }

  /** The token the outer loop emits at position i for window size w. */
  function TokenAt(inp: seq<Unit>, w: Int32, i: nat): Token
    requires i < |inp|
  {
    var scan := ScanWindow(inp, i, WindowStart(i, w), i);
    if scan.found then
      Token(scan.start, scan.len, UnitAfter(inp, i + scan.len))
    else
      Token(0, 0, inp[i])
  }

  /** How far the outer loop moves past position i: the match and the unit after it, or the literal. */
  function Step(t: Token): nat
  {
    if t.IsLiteral() then 1 else t.length + 1
  }

  /** The tokens emitted from position i to the end. */
  function TokensFrom(inp: seq<Unit>, w: Int32, i: nat): seq<Token>
    decreases |inp| - i
  {
    if i >= |inp| then []
    else
      var t := TokenAt(inp, w, i);
      [t] + TokensFrom(inp, w, i + Step(t))
  }

  /** Each token as the three units appended to the output. */
  function Units(ts: seq<Token>): (out: seq<Unit>)
    ensures |out| == 3 * |ts|
    decreases |ts|
  {
    if |ts| == 0 then [] else TokenUnits(ts[0]) + Units(ts[1..])
  }

  /** `(char) distance`, `(char) length`, next. */
  function TokenUnits(t: Token): seq<Unit>
  {
    [ToUnit(t.distance), ToUnit(t.length), t.next]
  }

  /** One step of the outer loop: the tokens from i are the token at i followed by the tokens from where it ends. */
  lemma TokensFromStep(inp: seq<Unit>, w: Int32, i: nat)
    requires i < |inp|
    ensures var t := TokenAt(inp, w, i);
            Units(TokensFrom(inp, w, i)) == TokenUnits(t) + Units(TokensFrom(inp, w, i + Step(t)))
  {
    var t := TokenAt(inp, w, i);
    var rest := TokensFrom(inp, w, i + Step(t));
    assert TokensFrom(inp, w, i) == [t] + rest;
    assert ([t] + rest)[1..] == rest;
  }

  /** What `compress` returns for the text and the window argument. */
  function Compressed(text: seq<Unit>, windowArg: Option<Int32>): seq<Unit>
  {
    Units(TokensFrom(Strings.Encode(text), WindowSize(windowArg), 0))
  }

  // ---------------------------------------------------------------------------
  // The compressor
  // ---------------------------------------------------------------------------

  /**
   * The inner loop of `compress` at position i: scans s from lo up to i and
   * keeps the first of the longest matches, with the unit that follows it.
   */
  method FindMatch(inp: seq<Unit>, i: nat, lo: nat) returns (found: bool, start: nat, matchLen: nat, nonMatchChar: Unit)
    requires i < |inp|
    ensures Scan(found, start, matchLen) == ScanWindow(inp, i, lo, i)
    ensures found ==> nonMatchChar == UnitAfter(inp, i + matchLen)
    ensures found ==> start >= 1
  {
    var n := |inp|;
    var target := inp[i];
    found, start, matchLen, nonMatchChar := false, 0, 0, 0xff;
    var s := lo;
    while s < i
      invariant lo <= s && (lo <= i ==> s <= i)
      invariant s <= i ==> Scan(found, start, matchLen) == ScanWindow(inp, i, lo, s)
      invariant s > i ==> !found && matchLen == 0 && start == 0
      invariant found ==> nonMatchChar == UnitAfter(inp, i + matchLen)
      invariant !found ==> matchLen == 0
    {
      ScanWindowNext(inp, i, lo, s);
      ghost var before := Scan(found, start, matchLen);
      if target == inp[s] {
        var r := GetMatchedLen(inp, s + 1, i + 1, n);
        var len := r + 1;
        assert len == CandidateLen(inp, i, s);
        if len > matchLen {
          start := i - s;
          matchLen := len;
          nonMatchChar := 0xff;
          if i + matchLen < n {
            nonMatchChar := inp[i + matchLen];
          }
        }
        found := true;
      }
      assert Scan(found, start, matchLen) == ScanStep(inp, i, before, s);
      s := s + 1;
    }
    ScanWindowChosen(inp, i, lo, i);
  }

  /** The token at i is what the outer loop appends after its inner loop. */
  lemma TokenOfScan(inp: seq<Unit>, w: Int32, i: nat, scan: Scan, nonMatchChar: Unit)
    requires i < |inp|
    requires scan == ScanWindow(inp, i, WindowStart(i, w), i)
    requires scan.found ==> nonMatchChar == UnitAfter(inp, i + scan.len)
    ensures TokenAt(inp, w, i) == if scan.found then Token(scan.start, scan.len, nonMatchChar) else Token(0, 0, inp[i])
  {
  }

  /** What the outer loop keeps: the output so far followed by the tokens still to come is the whole output. */
  lemma OutputStep(inp: seq<Unit>, w: Int32, out: seq<Unit>, i: nat, whole: seq<Unit>)
    requires i < |inp|
    requires out + Units(TokensFrom(inp, w, i)) == whole
    ensures var t := TokenAt(inp, w, i);
            (out + TokenUnits(t)) + Units(TokensFrom(inp, w, i + Step(t))) == whole
  {
    var t := TokenAt(inp, w, i);
    TokensFromStep(inp, w, i);
    var rest := Units(TokensFrom(inp, w, i + Step(t)));
    assert (out + TokenUnits(t)) + rest == out + (TokenUnits(t) + rest);
  }

  /** `LZ77.compress(in, args)`: picks the window size, re-encodes the text and runs the outer loop. */
  method Compress(text: seq<Unit>, windowArg: Option<Int32>) returns (out: seq<Unit>)
    ensures out == Compressed(text, windowArg)
  {
    var windowSize := if windowArg.Some? then windowArg.value else DefaultWindowSize;
    var inp := Strings.Uft8Encode(text);
    out := CompressUnits(inp, windowSize);
  }

  /** The outer loop of `compress` over the re-encoded input, emitting one token per step. */
  method CompressUnits(inp: seq<Unit>, windowSize: Int32) returns (out: seq<Unit>)
    ensures out == Units(TokensFrom(inp, windowSize, 0))
  {
    ghost var whole := Units(TokensFrom(inp, windowSize, 0));
    out := [];
    var n := |inp|;
    var i := 0;
    assert out + whole == whole;
    while i < n
      invariant out + Units(TokensFrom(inp, windowSize, i)) == whole
      decreases n - i
    {
      OutputStep(inp, windowSize, out, i, whole);
      out, i := EmitToken(inp, windowSize, out, i);
    }
    assert TokensFrom(inp, windowSize, i) == [];
    assert out + [] == out;
  }

  /**
   * The body of the outer loop at position i: runs the inner loop, appends
   * the match token and skips the match and the unit after it, or appends the
   * literal and moves one unit on.
   */
  method EmitToken(inp: seq<Unit>, windowSize: Int32, out: seq<Unit>, i: nat) returns (out': seq<Unit>, i': nat)
    requires i < |inp|
    ensures out' == out + TokenUnits(TokenAt(inp, windowSize, i))
    ensures i' == i + Step(TokenAt(inp, windowSize, i))
  {
    var n := |inp|;
    var target := inp[i];
    var lo := Max(0, Wrap32(i - windowSize));
    var found, start, matchLen, nonMatchChar := FindMatch(inp, i, lo);
    ghost var t := if found then Token(start, matchLen, nonMatchChar) else Token(0, 0, target);
    TokenOfScan(inp, windowSize, i, Scan(found, start, matchLen), nonMatchChar);
    if found {
      out' := out + [ToUnit(start), ToUnit(matchLen), nonMatchChar];
      i' := i + matchLen + 1;
    } else {
      out' := out + [0x00, 0x00, target];
      i' := i + 1;
    }
    assert out' == out + TokenUnits(t) && i' == i + Step(t);
  }

  // ---------------------------------------------------------------------------
  // What the tokens mean
  // ---------------------------------------------------------------------------

  /**
   * What a token emitted at position i, with the window starting at lo, says
   * about the input: a literal `(0, 0, in[i])`, or a match of distance d and
   * length L with 1 <= d <= i - lo, 1 <= L <= d, i + L <= n, the L units at i
   * equal to the L units at i - d, and as next unit in[i + L] or the end marker.
   */
  predicate WellFormed(inp: seq<Unit>, lo: nat, i: nat, t: Token)
    requires i < |inp|
  {
    if t.IsLiteral() then
      t.length == 0 && t.next == inp[i]
    else
      && 1 <= t.distance <= i - lo
      && 1 <= t.length <= t.distance
      && i + t.length <= |inp|
      && inp[i - t.distance..i - t.distance + t.length] == inp[i..i + t.length]
      && t.next == UnitAfter(inp, i + t.length)
  }

  /** Every token the compressor emits is well formed. */
  lemma TokenShape(inp: seq<Unit>, w: Int32, i: nat)
    requires i < |inp|
    ensures WellFormed(inp, WindowStart(i, w), i, TokenAt(inp, w, i))
  {
    var scan := ScanWindow(inp, i, WindowStart(i, w), i);
    ScanWindowChosen(inp, i, WindowStart(i, w), i);
    if scan.found {
      CandidateLenMeaning(inp, i, i - scan.start);
    }
  }

  /** A literal is emitted exactly when no position of the window holds the unit at i. */
  lemma TokenIsLiteralIff(inp: seq<Unit>, w: Int32, i: nat)
    requires i < |inp|
    ensures TokenAt(inp, w, i).IsLiteral() <==> forall s :: WindowStart(i, w) <= s < i ==> inp[s] != inp[i]
  {
    var lo := WindowStart(i, w);
    ScanWindowFound(inp, i, lo, i);
    ScanWindowChosen(inp, i, lo, i);
    if !ScanWindow(inp, i, lo, i).found {
      forall s | lo <= s < i ensures inp[s] != inp[i] {
        assert !IsCandidate(inp, i, s);
      }
    }
  }

  /**
   * The chosen match is the first of the longest: no candidate in the window
   * matches more, and every candidate before it matches strictly less.
   */
  lemma TokenIsFirstLongest(inp: seq<Unit>, w: Int32, i: nat, s: nat)
    requires i < |inp|
    requires WindowStart(i, w) <= s < i && inp[s] == inp[i]
    ensures var t := TokenAt(inp, w, i);
            && !t.IsLiteral()
            && CandidateLen(inp, i, s) <= t.length
            && (s < i - t.distance ==> CandidateLen(inp, i, s) < t.length)
  {
    var lo := WindowStart(i, w);
    ScanWindowFound(inp, i, lo, i);
    ScanWindowChosen(inp, i, lo, i);
    assert IsCandidate(inp, i, s);
    ScanWindowLongest(inp, i, lo, i, s);
    if s < i - TokenAt(inp, w, i).distance {
      ScanWindowEarliest(inp, i, lo, i, s);
    }
  }

  /** With a window of w >= 0 (and positions within `int`), every distance is at most w. */
  lemma DistanceWithinWindow(inp: seq<Unit>, w: Int32, i: nat)
    requires i < |inp| <= IntMax && 0 <= w
    ensures TokenAt(inp, w, i).distance <= w
  {
    WindowStartOfNonNegative(i, w);
    TokenShape(inp, w, i);
  }

  /** When distances fit a `char`, so do lengths, and the casts of the first two units change nothing. */
  predicate CastsExact(inp: seq<Unit>, w: Int32)
  {
    (0 <= w <= 0xFFFF && |inp| <= IntMax) || |inp| <= 0x1_0000
  }

  lemma FitsUnits(inp: seq<Unit>, w: Int32, i: nat, t: Token)
    requires i < |inp| && CastsExact(inp, w)
    requires WellFormed(inp, WindowStart(i, w), i, t)
    ensures t.distance < 0x1_0000 && t.length < 0x1_0000
  {
    if 0 <= w <= 0xFFFF && |inp| <= IntMax {
      WindowStartOfNonNegative(i, w);
    }
  }

  // ---------------------------------------------------------------------------
  // Decoding
  // ---------------------------------------------------------------------------

  /**
   * A decoder for the token stream: `(0, 0, c)` appends c; `(d, L, c)` with
   * 1 <= L <= d copies the L units found d back, then appends c unless it is the
   * end marker. None on a stream no run of the compressor produces.
   */
  function DecodeFrom(acc: seq<Unit>, u: seq<Unit>): Option<seq<Unit>>
    decreases |u|
  {
    if |u| == 0 then Some(acc)
    else if |u| < 3 then None
    else
      match DecodeStep(acc, u[0], u[1], u[2])
      case Some(next) => DecodeFrom(next, u[3..])
      case None => None
  }

  /** Decoding one token (d, l, c) after the units acc; None when it refers outside acc. */
  function DecodeStep(acc: seq<Unit>, d: Unit, l: Unit, c: Unit): Option<seq<Unit>>
  {
    if d == 0 && l == 0 then Some(acc + [c])
    else if 1 <= l <= d <= |acc| then
      Some(acc + acc[|acc| - d..|acc| - d + l] + (if c == EndMarker then [] else [c]))
    else None
  }

  /** Decoding a stream that starts with a valid token continues after that token. */
  lemma DecodeFromCons(acc: seq<Unit>, t: Token, rest: seq<Unit>, next: seq<Unit>)
    requires DecodeStep(acc, ToUnit(t.distance), ToUnit(t.length), t.next) == Some(next)
    ensures DecodeFrom(acc, TokenUnits(t) + rest) == DecodeFrom(next, rest)
  {
    var u := TokenUnits(t) + rest;
    assert u[0] == ToUnit(t.distance) && u[1] == ToUnit(t.length) && u[2] == t.next;
    assert u[3..] == rest;
  }

  function Decode(u: seq<Unit>): Option<seq<Unit>>
  {
    DecodeFrom([], u)
  }

  /** What decoding one token appends to what was decoded before it. */
  function Expansion(acc: seq<Unit>, t: Token): seq<Unit>
    requires !t.IsLiteral() ==> t.length <= t.distance <= |acc|
  {
    if t.IsLiteral() then [t.next]
    else acc[|acc| - t.distance..|acc| - t.distance + t.length] + (if t.next == EndMarker then [] else [t.next])
  }

  /** The decoder reads a token whose fields survived the casts as the compressor meant it. */
  lemma DecodeToken(acc: seq<Unit>, t: Token)
    requires t.distance < 0x1_0000 && t.length < 0x1_0000
    requires t.IsLiteral() ==> t.length == 0
    requires !t.IsLiteral() ==> 1 <= t.length <= t.distance <= |acc|
    ensures DecodeStep(acc, ToUnit(t.distance), ToUnit(t.length), t.next) == Some(acc + Expansion(acc, t))
  {
    if !t.IsLiteral() {
      var copied := acc[|acc| - t.distance..|acc| - t.distance + t.length];
      var next: seq<Unit> := if t.next == EndMarker then [] else [t.next];
      assert acc + copied + next == acc + (copied + next);
    }
  }

  /** Copying l units from d back, then the next unit if there is one, extends the prefix before i. */
  lemma CopyExtends(inp: seq<Unit>, i: nat, d: nat, l: nat)
    requires 1 <= l <= d <= i && i + l <= |inp|
    requires inp[i - d..i - d + l] == inp[i..i + l]
    ensures inp[..i] + inp[..i][i - d..i - d + l] + (if i + l < |inp| then [inp[i + l]] else [])
            == inp[..Min(i + l + 1, |inp|)]
  {
    var acc := inp[..i];
    assert acc[i - d..i - d + l] == inp[i..i + l];
    if i + l < |inp| {
      assert inp[..i + l + 1] == inp[..i] + inp[i..i + l] + [inp[i + l]];
    } else {
      assert inp[..i + l] == inp[..i] + inp[i..i + l];
    }
  }

  /** Decoding a well-formed token at position i extends the input before i up to where the token ends. */
  lemma ExpansionAt(inp: seq<Unit>, lo: nat, i: nat, t: Token)
    requires i < |inp| && WellFormed(inp, lo, i, t)
    requires forall k :: 0 <= k < |inp| ==> inp[k] != EndMarker
    ensures !t.IsLiteral() ==> t.length <= t.distance <= i
    ensures inp[..i] + Expansion(inp[..i], t) == inp[..Min(i + Step(t), |inp|)]
  {
    if t.IsLiteral() {
      assert inp[..i] + [inp[i]] == inp[..i + 1];
    } else {
      CopyExtends(inp, i, t.distance, t.length);
      if i + t.length < |inp| {
        assert t.next != EndMarker;
      }
    }
  }

  /**
   * ts, read from position i, describes the rest of the input: each token is
   * well formed where it stands, its first two fields fit a `char`, and the
   * next token stands where the previous one ends.
   */
  predicate Covers(inp: seq<Unit>, i: nat, ts: seq<Token>)
    decreases |ts|
  {
    if |ts| == 0 then i == |inp|
    else
      && i < |inp|
      && WellFormed(inp, 0, i, ts[0])
      && ts[0].distance < 0x1_0000 && ts[0].length < 0x1_0000
      && Covers(inp, Min(i + Step(ts[0]), |inp|), ts[1..])
  }

  /** Covering extends backwards by one well-formed token. */
  lemma CoversCons(inp: seq<Unit>, i: nat, t: Token, rest: seq<Token>)
    requires i < |inp| && WellFormed(inp, 0, i, t)
    requires t.distance < 0x1_0000 && t.length < 0x1_0000
    requires Covers(inp, Min(i + Step(t), |inp|), rest)
    ensures Covers(inp, i, [t] + rest)
  {
    assert ([t] + rest)[1..] == rest;
  }

  /** A token well formed for a window starting at lo is well formed for the whole prefix. */
  lemma WellFormedFromStart(inp: seq<Unit>, lo: nat, i: nat, t: Token)
    requires i < |inp| && WellFormed(inp, lo, i, t)
    ensures WellFormed(inp, 0, i, t)
  {
  }

  /** The tokens from i are the token at i followed by the tokens from where it ends. */
  lemma TokensFromCons(inp: seq<Unit>, w: Int32, i: nat)
    requires i < |inp|
    ensures var t := TokenAt(inp, w, i);
            TokensFrom(inp, w, i) == [t] + TokensFrom(inp, w, Min(i + Step(t), |inp|))
  {
    var t := TokenAt(inp, w, i);
    assert TokensFrom(inp, w, i + Step(t)) == TokensFrom(inp, w, Min(i + Step(t), |inp|));
  }

  /** The token at i is well formed for the whole prefix, and its fields fit in a unit. */
  lemma TokenFits(inp: seq<Unit>, w: Int32, i: nat)
    requires i < |inp| && CastsExact(inp, w)
    ensures var t := TokenAt(inp, w, i);
      WellFormed(inp, 0, i, t) && t.distance < 0x1_0000 && t.length < 0x1_0000
  {
    var t := TokenAt(inp, w, i);
    TokenShape(inp, w, i);
    FitsUnits(inp, w, i, t);
    WellFormedFromStart(inp, WindowStart(i, w), i, t);
  }

  /** The compressor's tokens from position i cover the input from i. */
  lemma {:induction false} TokensFromCovers(inp: seq<Unit>, w: Int32, i: nat)
    requires i <= |inp| && CastsExact(inp, w)
    ensures Covers(inp, i, TokensFrom(inp, w, i))
    decreases |inp| - i
  {
    if i < |inp| {
      var t := TokenAt(inp, w, i);
      var e := Min(i + Step(t), |inp|);
      TokenFits(inp, w, i);
      TokensFromCovers(inp, w, e);
      var rest := TokensFrom(inp, w, e);
      CoversCons(inp, i, t, rest);
      TokensFromCons(inp, w, i);
    }
  }

  /** Decoding tokens that cover the input from i, given the input before i, yields the whole input. */
  lemma {:induction false} DecodeCovers(inp: seq<Unit>, i: nat, ts: seq<Token>)
    requires i <= |inp| && Covers(inp, i, ts)
    requires forall k :: 0 <= k < |inp| ==> inp[k] != EndMarker
    ensures DecodeFrom(inp[..i], Units(ts)) == Some(inp)
    decreases |ts|
  {
    if |ts| == 0 {
      assert inp[..i] == inp;
    } else {
      var t := ts[0];
      var e := Min(i + Step(t), |inp|);
      var u := Units(ts[1..]);
      assert Covers(inp, e, ts[1..]);
      DecodeCovers(inp, e, ts[1..]);
      assert Units(ts) == TokenUnits(t) + u;
      ExpansionAt(inp, 0, i, t);
      DecodeToken(inp[..i], t);
      DecodeFromCons(inp[..i], t, u, inp[..e]);
    }
  }

  /** Lossless: decoding the compressor's output gives back the UTF-8 re-encoding of the text. */
  lemma RoundTrip(text: seq<Unit>, windowArg: Option<Int32>)
    requires CastsExact(Strings.Encode(text), WindowSize(windowArg))
    ensures Decode(Compressed(text, windowArg)) == Some(Strings.Encode(text))
  {
    var inp := Strings.Encode(text);
    Strings.EncodeBelowF0(text);
    assert inp[..0] == [];
    TokensFromCovers(inp, WindowSize(windowArg), 0);
    DecodeCovers(inp, 0, TokensFrom(inp, WindowSize(windowArg), 0));
  }

  // ---------------------------------------------------------------------------
  // A full match is reported as length 1
  // ---------------------------------------------------------------------------

  /**
   * getMatchedLen as evidently intended: the number of leading units that
   * agree, which is the whole compared range when no unit differs.
   */
  function IntendedMatchedLen(src: seq<Unit>, i1: nat, i2: nat, end: nat): (r: nat)
    requires i1 <= i2 <= end <= |src|
    ensures r <= Max(0, Min(i2 - i1, end - i2))
  {
    CommonRun(src, i1, i2, Max(0, Min(i2 - i1, end - i2)))
  }

  /** The intended length is the longest common prefix of the two compared ranges. */
  lemma IntendedMatchedLenIsLongest(src: seq<Unit>, i1: nat, i2: nat, end: nat)
    requires i1 <= i2 <= end <= |src|
    ensures var r := IntendedMatchedLen(src, i1, i2, end);
            && src[i1..i1 + r] == src[i2..i2 + r]
            && (r < Min(i2 - i1, end - i2) ==> src[i1 + r] != src[i2 + r])
  {
    CommonRunMeaning(src, i1, i2, Max(0, Min(i2 - i1, end - i2)));
  }

  /** The code as written agrees with the intended length except on a full match, where it answers 0. */
  lemma MatchedLenVersusIntended(src: seq<Unit>, i1: nat, i2: nat, end: nat)
    requires i1 <= i2 <= end <= |src|
    ensures var k := Max(0, Min(i2 - i1, end - i2));
            var r := IntendedMatchedLen(src, i1, i2, end);
            MatchedLen(src, i1, i2, end) == if r == k then 0 else r
  {
  }

  /**
   * On "abab" the second "ab" fully matches the first, yet the token at
   * position 2 reports length 1 and carries the second 'b' as its next unit,
   * so the output is three tokens where the intended match would give
   * (2, 2, 0xFF).
   */
  lemma FullMatchReportedAsOne()
    ensures var inp: seq<Unit> := [97, 98, 97, 98];
            && IntendedMatchedLen(inp, 1, 3, 4) == 1
            && MatchedLen(inp, 1, 3, 4) == 0
            && TokenAt(inp, DefaultWindowSize, 2) == Token(2, 1, 98)
  {
    var inp: seq<Unit> := [97, 98, 97, 98];
    assert inp[1] == inp[3];
    assert CommonRun(inp, 1, 3, 1) == 1;
    assert CandidateLen(inp, 2, 0) == 1;
    assert ScanWindow(inp, 2, 0, 2) == Scan(true, 2, 1) by {
      assert ScanWindow(inp, 2, 0, 0) == Scan(false, 0, 0);
      assert ScanWindow(inp, 2, 0, 1) == Scan(true, 2, 1);
    }
  }
}
