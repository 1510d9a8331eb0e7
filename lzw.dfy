/**
 * `LZW.compress`: Lempel-Ziv-Welch over the units of the re-encoded text.
 * The dictionary starts with one single-unit string per code below the
 * dictionary size. The longest known prefix w grows one unit at a time; when
 * w + c is unknown, the code of w is emitted (truncated to one UTF-16 unit),
 * w + c is added under the next free code, and w restarts as [c].
 *
 * `dictionary.get` on an absent key yields null, and unboxing it throws a
 * NullPointerException. That is the `None` result here, and it happens exactly
 * when the input holds a unit that has no single-unit seed.
 *
 * Codes are unbounded integers. The source increments a Java `int`, but
 * `ToUnitOfWrap32` shows the wrap-around cannot change an emitted unit.
 * The ghost outputs `codes` (the untruncated emitted codes) and `added` (the
 * strings added to the dictionary, in order) describe what the output means.
 */
module Lzw {
  import opened Wrappers
  import opened JavaText
  import Strings

  const DefaultDictSize: Int32 := 256

  /** The first argument when given, otherwise the default. */
  function DictSize(dictArg: Option<Int32>): Int32
  {
    match dictArg
    case None => DefaultDictSize
    case Some(n) => n
  }

  /**
   * The unit c gets a single-unit seed when some code i in [0, n) has
   * `(char) i == c`, which for a unit is exactly c < n.
   */
  predicate Seeded(n: int, c: Unit) { c < n }

  /** Seeding puts [c] in the dictionary exactly for the seeded units. */
  lemma SeededMeaning(n: int, c: Unit)
    ensures Seeded(n, c) <==> exists i :: 0 <= i < n && ToUnit(i) == c
  {
    if Seeded(n, c) {
      assert ToUnit(c) == c;
    }
  }

  /**
   * The string a code stands for: a seed code i stands for [(char) i], code
   * n + j for the j-th string added, and anything else for nothing.
   */
  function Str(n: int, added: seq<seq<Unit>>, code: int): seq<Unit>
  {
    if 0 <= code < n then [ToUnit(code)]
    else if n <= code < n + |added| then added[code - n]
    else []
  }

  /** The strings of a sequence of codes, concatenated. */
  function Expand(n: int, added: seq<seq<Unit>>, codes: seq<int>): seq<Unit>
    decreases |codes|
  {
    if |codes| == 0 then []
    else Expand(n, added, codes[..|codes| - 1]) + Str(n, added, codes[|codes| - 1])
  }

  /** The dictionary state only ever grows, so old codes keep their strings. */
  lemma StrGrows(n: int, added: seq<seq<Unit>>, x: seq<Unit>, code: int)
    requires code < n + |added|
    ensures Str(n, added + [x], code) == Str(n, added, code)
  {
    if n <= code < n + |added| {
      assert (added + [x])[code - n] == added[code - n];
    }
  }

  lemma {:induction false} ExpandGrows(n: int, added: seq<seq<Unit>>, x: seq<Unit>, codes: seq<int>)
    requires forall j :: 0 <= j < |codes| ==> codes[j] < n + |added|
    ensures Expand(n, added + [x], codes) == Expand(n, added, codes)
    decreases |codes|
  {
    if |codes| > 0 {
      ExpandGrows(n, added, x, codes[..|codes| - 1]);
      StrGrows(n, added, x, codes[|codes| - 1]);
    }
  }

  lemma ExpandSnoc(n: int, added: seq<seq<Unit>>, codes: seq<int>, code: int)
    ensures Expand(n, added, codes + [code]) == Expand(n, added, codes) + Str(n, added, code)
  {
    assert (codes + [code])[..|codes|] == codes;
  }

  /** The first unit of a string (0 for the empty string, which no code stands for). */
  function First(s: seq<Unit>): Unit { if |s| > 0 then s[0] else 0 }

  /** How the entries added were formed, in the order the decoder sees them. */
  ghost predicate Growth(n: int, added: seq<seq<Unit>>, codes: seq<int>)
  {
    && |codes| == |added| + 1
    && forall j :: 0 <= j < |added| ==>
         added[j] == Str(n, added, codes[j]) + [First(Str(n, added, codes[j + 1]))]
  }

  /**
   * The same rule for the first m entries, when the string of code m (what
   * follows the last of them) begins with the unit `last`.
   */
  ghost predicate Grown(n: int, added: seq<seq<Unit>>, codes: seq<int>, m: nat, last: Unit)
    requires m <= |added| && m <= |codes|
    decreases m
  {
    m == 0 ||
    (added[m - 1] == Str(n, added, codes[m - 1]) + [last]
     && Grown(n, added, codes, m - 1, First(Str(n, added, codes[m - 1]))))
  }

  lemma {:induction false} GrownGrows(n: int, added: seq<seq<Unit>>, codes: seq<int>, m: nat, last: Unit,
                                      x: seq<Unit>, code: int)
    requires m <= |added| && m <= |codes|
    requires forall j :: 0 <= j < |codes| ==> codes[j] < n + |added|
    ensures Grown(n, added + [x], codes + [code], m, last) == Grown(n, added, codes, m, last)
    decreases m
  {
    if m > 0 {
      StrGrows(n, added, x, codes[m - 1]);
      assert (codes + [code])[m - 1] == codes[m - 1];
      assert (added + [x])[m - 1] == added[m - 1];
      GrownGrows(n, added, codes, m - 1, First(Str(n, added, codes[m - 1])), x, code);
    }
  }

  lemma {:induction false} GrownMoreCodes(n: int, added: seq<seq<Unit>>, codes: seq<int>, m: nat, last: Unit, code: int)
    requires m <= |added| && m <= |codes|
    ensures Grown(n, added, codes + [code], m, last) == Grown(n, added, codes, m, last)
    decreases m
  {
    if m > 0 {
      assert (codes + [code])[m - 1] == codes[m - 1];
      GrownMoreCodes(n, added, codes, m - 1, First(Str(n, added, codes[m - 1])), code);
    }
  }

  lemma {:induction false} GrownRule(n: int, added: seq<seq<Unit>>, codes: seq<int>, m: nat)
    requires m <= |added| && m < |codes|
    requires Grown(n, added, codes, m, First(Str(n, added, codes[m])))
    ensures forall j :: 0 <= j < m ==>
              added[j] == Str(n, added, codes[j]) + [First(Str(n, added, codes[j + 1]))]
    decreases m
  {
    if m > 0 {
      GrownRule(n, added, codes, m - 1);
    }
  }

  /** Each emitted code was already known: below the next free code at that point. */
  predicate EmittedKnown(n: int, codes: seq<int>)
  {
    forall j :: 0 <= j < |codes| ==> 0 <= codes[j] < n + j
  }

  /** What the dictionary holds: each key is the string of its code. */
  ghost predicate DictMeaning(n: int, added: seq<seq<Unit>>, dict: map<seq<Unit>, int>)
  {
    && (forall key :: key in dict ==>
          |key| >= 1 && Seeded(n, key[0]) && 0 <= dict[key] < n + |added|
          && Str(n, added, dict[key]) == key)
    && (forall c: Unit :: [c] in dict <==> Seeded(n, c))
  }

  /**
   * Every unit of every key is seeded, except that the last key added may end
   * in an unseeded unit while w is that unit alone and not a key (the source
   * is then one `get` away from the exception).
   */
  ghost predicate KeysSeeded(n: int, added: seq<seq<Unit>>, dict: map<seq<Unit>, int>, w: seq<Unit>)
  {
    forall key, j :: key in dict && 0 <= j < |key| ==>
      || Seeded(n, key[j])
      || (|w| == 1 && w !in dict && |added| > 0 && key == added[|added| - 1] && j == |key| - 1)
  }

  /** One new entry per emission, each under the next free code. */
  ghost predicate Counted(n: int, index: int, codes: seq<int>, added: seq<seq<Unit>>)
  {
    index == n + |added| && |added| == |codes|
  }

  /**
   * w is empty only before the first unit; when it is not a key it is the last
   * unit alone, unseeded; every other unit consumed is seeded.
   */
  ghost predicate Pending(inp: seq<Unit>, k: nat, n: int, dict: map<seq<Unit>, int>, w: seq<Unit>)
  {
    && k <= |inp|
    && (k == 0 <==> w == [])
    && (w !in dict && k > 0 ==> w == [inp[k - 1]] && !Seeded(n, inp[k - 1]))
    && (forall j :: 0 <= j < k ==> Seeded(n, inp[j]) || (w !in dict && j == k - 1))
  }

  /** The strings of the emitted codes, then w, spell the units consumed. */
  ghost predicate Spelled(inp: seq<Unit>, k: nat, n: int, added: seq<seq<Unit>>, codes: seq<int>, w: seq<Unit>)
  {
    && k <= |inp|
    && Expand(n, added, codes) + w == inp[..k]
    && (|codes| > 0 ==> w != [])
  }

  /** The main loop's invariant after the first k units. */
  ghost predicate Inv(inp: seq<Unit>, k: nat, n: int, dict: map<seq<Unit>, int>, w: seq<Unit>,
                      index: int, codes: seq<int>, added: seq<seq<Unit>>)
  {
    && Counted(n, index, codes, added)
    && Pending(inp, k, n, dict, w)
    && DictMeaning(n, added, dict)
    && KeysSeeded(n, added, dict, w)
    && Spelled(inp, k, n, added, codes, w)
    && EmittedKnown(n, codes)
    && Grown(n, added, codes, |added|, First(w))
  }

  lemma HitPending(inp: seq<Unit>, k: nat, n: int, dict: map<seq<Unit>, int>, w: seq<Unit>, added: seq<seq<Unit>>)
    requires k < |inp|
    requires Pending(inp, k, n, dict, w) && DictMeaning(n, added, dict) && KeysSeeded(n, added, dict, w)
    requires w + [inp[k]] in dict
    ensures w in dict || w == []
    ensures Pending(inp, k + 1, n, dict, w + [inp[k]])
  {
    var c := inp[k];
    var wc := w + [c];
    if w !in dict && k > 0 {
      assert false;
    }
    assert wc[|wc| - 1] == c;
    assert Seeded(n, c);
  }

  lemma HitKeys(n: int, added: seq<seq<Unit>>, dict: map<seq<Unit>, int>, w: seq<Unit>, c: Unit)
    requires KeysSeeded(n, added, dict, w)
    requires w in dict || w == []
    ensures KeysSeeded(n, added, dict, w + [c])
  {
  }

  lemma HitSpelled(inp: seq<Unit>, k: nat, n: int, added: seq<seq<Unit>>, codes: seq<int>, w: seq<Unit>)
    requires k < |inp|
    requires Spelled(inp, k, n, added, codes, w)
    ensures Spelled(inp, k + 1, n, added, codes, w + [inp[k]])
  {
    assert inp[..k + 1] == inp[..k] + [inp[k]];
  }

  lemma HitGrowth(n: int, added: seq<seq<Unit>>, codes: seq<int>, w: seq<Unit>, c: Unit)
    requires |added| <= |codes| && Grown(n, added, codes, |added|, First(w))
    requires |added| > 0 ==> w != []
    ensures Grown(n, added, codes, |added|, First(w + [c]))
  {
    if |added| > 0 {
      assert First(w + [c]) == First(w);
    }
  }

  /** w + c is a key: w grows. */
  lemma HitStep(inp: seq<Unit>, k: nat, n: int, dict: map<seq<Unit>, int>, w: seq<Unit>,
                index: int, codes: seq<int>, added: seq<seq<Unit>>)
    requires k < |inp|
    requires Inv(inp, k, n, dict, w, index, codes, added)
    requires w + [inp[k]] in dict
    ensures Inv(inp, k + 1, n, dict, w + [inp[k]], index, codes, added)
  {
    HitPending(inp, k, n, dict, w, added);
    HitKeys(n, added, dict, w, inp[k]);
    HitSpelled(inp, k, n, added, codes, w);
    HitGrowth(n, added, codes, w, inp[k]);
  }

  lemma MissDict(n: int, added: seq<seq<Unit>>, dict: map<seq<Unit>, int>, w: seq<Unit>, c: Unit, index: int)
    requires DictMeaning(n, added, dict) && index == n + |added|
    requires w in dict && w + [c] !in dict
    ensures |w| >= 1 && 0 <= dict[w] < n + |added| && Str(n, added, dict[w]) == w
    ensures DictMeaning(n, added + [w + [c]], dict[w + [c] := index])
  {
    var wc := w + [c];
    var added', dict' := added + [wc], dict[wc := index];
    assert Str(n, added', n + |added|) == wc;
    forall key | key in dict'
      ensures |key| >= 1 && Seeded(n, key[0]) && 0 <= dict'[key] < n + |added'|
              && Str(n, added', dict'[key]) == key
    {
      if key != wc {
        StrGrows(n, added, wc, dict[key]);
      } else {
        assert key[0] == w[0];
      }
    }
    forall c': Unit ensures [c'] in dict' <==> [c'] in dict {
      assert |wc| >= 2;
    }
  }

  lemma MissKeys(n: int, added: seq<seq<Unit>>, dict: map<seq<Unit>, int>, w: seq<Unit>, c: Unit, index: int)
    requires DictMeaning(n, added, dict) && KeysSeeded(n, added, dict, w)
    requires w in dict && w + [c] !in dict
    ensures KeysSeeded(n, added + [w + [c]], dict[w + [c] := index], [c])
  {
    var wc := w + [c];
    var added', dict' := added + [wc], dict[wc := index];
    assert |w| >= 1;
    assert [c] in dict' <==> [c] in dict by { assert [c] != wc; }
    forall key, j | key in dict' && 0 <= j < |key|
      ensures || Seeded(n, key[j])
              || (|[c]| == 1 && [c] !in dict' && |added'| > 0 && key == added'[|added'| - 1] && j == |key| - 1)
    {
      if key == wc && j < |w| {
        assert key[j] == w[j];
      }
    }
  }

  lemma MissPending(inp: seq<Unit>, k: nat, n: int, dict: map<seq<Unit>, int>, w: seq<Unit>,
                    added: seq<seq<Unit>>, dict': map<seq<Unit>, int>)
    requires k < |inp|
    requires Pending(inp, k, n, dict, w) && w in dict
    requires DictMeaning(n, added, dict')
    ensures Pending(inp, k + 1, n, dict', [inp[k]])
  {
    assert [inp[k]] in dict' <==> Seeded(n, inp[k]);
  }

  lemma MissSpelled(inp: seq<Unit>, k: nat, n: int, added: seq<seq<Unit>>, codes: seq<int>,
                    w: seq<Unit>, code: int, x: seq<Unit>)
    requires k < |inp|
    requires Spelled(inp, k, n, added, codes, w) && EmittedKnown(n, codes) && |codes| == |added|
    requires 0 <= code < n + |added| && Str(n, added, code) == w
    ensures Spelled(inp, k + 1, n, added + [x], codes + [code], [inp[k]])
    ensures EmittedKnown(n, codes + [code])
  {
    ExpandGrows(n, added, x, codes);
    StrGrows(n, added, x, code);
    ExpandSnoc(n, added + [x], codes, code);
    assert inp[..k + 1] == inp[..k] + [inp[k]];
  }

  lemma MissGrowth(n: int, added: seq<seq<Unit>>, codes: seq<int>, w: seq<Unit>, code: int, c: Unit)
    requires |codes| == |added| && Grown(n, added, codes, |added|, First(w))
    requires forall j :: 0 <= j < |codes| ==> codes[j] < n + |added|
    requires 0 <= code < n + |added| && Str(n, added, code) == w
    ensures Grown(n, added + [w + [c]], codes + [code], |added + [w + [c]]|, First([c]))
  {
    var added', codes' := added + [w + [c]], codes + [code];
    StrGrows(n, added, w + [c], code);
    assert added'[|added|] == w + [c];
    assert codes'[|added|] == code;
    GrownGrows(n, added, codes, |added|, First(w), w + [c], code);
  }

  /** w + c is not a key and w is: emit w's code and add w + c. */
  lemma MissStep(inp: seq<Unit>, k: nat, n: int, dict: map<seq<Unit>, int>, w: seq<Unit>,
                 index: int, codes: seq<int>, added: seq<seq<Unit>>)
    requires k < |inp|
    requires Inv(inp, k, n, dict, w, index, codes, added)
    requires w + [inp[k]] !in dict && w in dict
    ensures Inv(inp, k + 1, n, dict[w + [inp[k]] := index], [inp[k]], index + 1,
                codes + [dict[w]], added + [w + [inp[k]]])
  {
    var c := inp[k];
    MissDict(n, added, dict, w, c, index);
    MissKeys(n, added, dict, w, c, index);
    MissPending(inp, k, n, dict, w, added + [w + [c]], dict[w + [c] := index]);
    MissSpelled(inp, k, n, added, codes, w, dict[w], w + [c]);
    assert forall j :: 0 <= j < |codes| ==> codes[j] < n + |added|;
    MissGrowth(n, added, codes, w, dict[w], c);
  }

  /** Emitting the code of w at the end: the codes now spell the whole input. */
  lemma FlushStep(inp: seq<Unit>, n: int, dict: map<seq<Unit>, int>, w: seq<Unit>,
                  index: int, codes: seq<int>, added: seq<seq<Unit>>)
    requires Inv(inp, |inp|, n, dict, w, index, codes, added)
    requires w != [] && w in dict
    ensures Expand(n, added, codes + [dict[w]]) == inp
    ensures EmittedKnown(n, codes + [dict[w]])
    ensures Growth(n, added, codes + [dict[w]])
  {
    var code := dict[w];
    var codes' := codes + [code];
    ExpandSnoc(n, added, codes, code);
    assert inp[..|inp|] == inp;
    GrownMoreCodes(n, added, codes, |added|, First(w), code);
    assert codes'[|added|] == code;
    GrownRule(n, added, codes', |added|);
  }

  /** Once the loop is over with w a key, or with nothing read, every unit was seeded. */
  lemma AllSeeded(inp: seq<Unit>, n: int, dict: map<seq<Unit>, int>, w: seq<Unit>)
    requires Pending(inp, |inp|, n, dict, w)
    requires w in dict || |inp| == 0
    ensures forall j :: 0 <= j < |inp| ==> Seeded(n, inp[j])
  {
  }

  /** Right after seeding, nothing read. */
  lemma Start(inp: seq<Unit>, n: int, dict: map<seq<Unit>, int>)
    requires DictMeaning(n, [], dict)
    requires forall key :: key in dict ==> |key| == 1
    ensures Inv(inp, 0, n, dict, [], n, [], [])
  {
    assert inp[..0] == [];
  }

  /** Neither w + c nor w is a key: the input holds an unseeded unit. */
  lemma StuckHasUnseeded(inp: seq<Unit>, k: nat, n: int, dict: map<seq<Unit>, int>, w: seq<Unit>)
    requires k < |inp| && Pending(inp, k, n, dict, w)
    requires forall c: Unit :: [c] in dict <==> Seeded(n, c)
    requires w !in dict && w + [inp[k]] !in dict
    ensures exists j :: 0 <= j < |inp| && !Seeded(n, inp[j])
  {
    if k == 0 {
      assert w + [inp[k]] == [inp[0]];
      assert !Seeded(n, inp[0]);
    } else {
      assert !Seeded(n, inp[k - 1]);
    }
  }

  /** w is not a key at the end: the input holds an unseeded unit. */
  lemma EndHasUnseeded(inp: seq<Unit>, n: int, dict: map<seq<Unit>, int>, w: seq<Unit>)
    requires Pending(inp, |inp|, n, dict, w)
    requires w != [] && w !in dict
    ensures exists j :: 0 <= j < |inp| && !Seeded(n, inp[j])
  {
    assert !Seeded(n, inp[|inp| - 1]);
  }

  /** Nothing was read: nothing was emitted. */
  lemma EmptyEnd(inp: seq<Unit>, n: int, dict: map<seq<Unit>, int>, index: int,
                 codes: seq<int>, added: seq<seq<Unit>>)
    requires Inv(inp, |inp|, n, dict, [], index, codes, added)
    ensures |inp| == 0 && codes == [] && added == []
    ensures forall j :: 0 <= j < |inp| ==> Seeded(n, inp[j])
    ensures Expand(n, added, codes) == inp && EmittedKnown(n, codes)
  {
  }

  // ---------------------------------------------------------------------------
  // The compressor as a function: the reference the loops are proved against
  // ---------------------------------------------------------------------------

  /** The dictionary after `dictionary.put("" + (char) i, i)` for every i below n, later codes overwriting. */
  function Seeds(n: int): map<seq<Unit>, int>
    decreases n
  {
    if n <= 0 then map[] else Seeds(n - 1)[[ToUnit(n - 1)] := n - 1]
  }

  /**
   * The variables of the main loop: the dictionary, w, the next free code,
   * and, to describe the output, the codes emitted and the strings added.
   */
  datatype Run = Run(dict: map<seq<Unit>, int>, w: seq<Unit>, index: int,
                     codes: seq<int>, added: seq<seq<Unit>>)

  /** The state before the first unit: the seeds, an empty w and the first free code n. */
  function Initial(n: int): Run
  {
    Run(Seeds(n), [], n, [], [])
  }

  /**
   * One turn of the loop for the unit c: w + c known, w grows; otherwise the
   * code of w is emitted and w + c added under the next code, and w restarts
   * as c. None when w itself is unknown, where `dictionary.get(w)` is null.
   */
  function Step(r: Run, c: Unit): Option<Run>
  {
    var wc := r.w + [c];
    if wc in r.dict then Some(r.(w := wc))
    else if r.w !in r.dict then None
    else Some(Run(r.dict[wc := r.index], [c], r.index + 1, r.codes + [r.dict[r.w]], r.added + [wc]))
  }

  /** The loop over the units, stopping at the first failure. */
  function Steps(r: Run, inp: seq<Unit>): Option<Run>
    decreases |inp|
  {
    if inp == [] then Some(r)
    else match Steps(r, inp[..|inp| - 1])
      case None => None
      case Some(s) => Step(s, inp[|inp| - 1])
  }

  /** The end: a non-empty w emits its code, or fails when it is unknown. */
  function Finish(r: Run): Option<seq<int>>
  {
    if r.w == [] then Some(r.codes)
    else if r.w !in r.dict then None
    else Some(r.codes + [r.dict[r.w]])
  }

  /** The codes `compress` emits for the encoded units, None where it throws. */
  function LzwCodes(n: int, inp: seq<Unit>): Option<seq<int>>
  {
    match Steps(Initial(n), inp)
    case None => None
    case Some(r) => Finish(r)
  }

  lemma StepsSnoc(r: Run, inp: seq<Unit>, k: nat)
    requires k < |inp|
    ensures Steps(r, inp[..k + 1]) ==
      (match Steps(r, inp[..k]) case None => None case Some(s) => Step(s, inp[k]))
  {
    assert inp[..k + 1][..k] == inp[..k];
  }

  lemma StepsExtend(r: Run, inp: seq<Unit>, k: nat, s: Run)
    requires k < |inp| && Steps(r, inp[..k]) == Some(s)
    ensures Steps(r, inp[..k + 1]) == Step(s, inp[k])
  {
    StepsSnoc(r, inp, k);
  }

  /** Once a turn fails, the loop has failed, however many units follow. */
  lemma {:induction false} StepsFailed(r: Run, inp: seq<Unit>, k: nat)
    requires k <= |inp| && Steps(r, inp[..k]) == None
    ensures Steps(r, inp) == None
    decreases |inp| - k
  {
    if k < |inp| {
      StepsSnoc(r, inp, k);
      StepsFailed(r, inp, k + 1);
    } else {
      assert inp[..k] == inp;
    }
  }

  /** The seeds are single units, each under a code below n that casts to it, and every unit below n has one. */
  lemma {:induction false} SeedsKeys(n: int)
    ensures forall key :: key in Seeds(n) ==>
      |key| == 1 && 0 <= Seeds(n)[key] < n && ToUnit(Seeds(n)[key]) == key[0]
    ensures forall c: Unit :: [c] in Seeds(n) <==> c < n
    decreases n
  {
    if n > 0 {
      SeedsKeys(n - 1);
    }
  }

  /**
   * The seeds of a dictionary of n <= 0x10000 entries: exactly the single
   * units below n, each under its own value.
   */
  lemma SeedsMeaning(n: int)
    requires n <= 0x1_0000
    ensures forall key :: key in Seeds(n) ==> |key| == 1 && key[0] < n && Seeds(n)[key] == key[0]
    ensures forall c: Unit :: [c] in Seeds(n) <==> c < n
  {
    SeedsKeys(n);
  }

  /**
   * A unit c repeated four times, below a seeded size of at most 0x10000
   * entries, compresses to c, the new code n (for cc), and c.
   */
  lemma RepeatedUnitCodes(n: int, c: Unit)
    requires c < n <= 0x1_0000
    ensures LzwCodes(n, [c, c, c, c]) == Some([c, n, c])
  {
    SeedsMeaning(n);
    RepeatedFrom(Seeds(n), n, c);
  }

  lemma RepeatedFrom(d: map<seq<Unit>, int>, n: int, c: Unit)
    requires [c] in d && d[[c]] == c && [c, c] !in d && [c, c, c] !in d
    ensures match Steps(Run(d, [], n, [], []), [c, c, c, c])
      case None => false
      case Some(r) => Finish(r) == Some([c, n, c])
  {
    var r0 := Run(d, [], n, [], []);
    var d2 := d[[c, c] := n];
    var r1 := r0.(w := [c]);
    var r2 := Run(d2, [c], n + 1, [c], [[c, c]]);
    var r3 := r2.(w := [c, c]);
    var r4 := Run(d2[[c, c, c] := n + 1], [c], n + 2, [c, n], [[c, c], [c, c, c]]);
    HitIs(r0, c, [c]);
    MissIs(r1, c, [c, c], r2);
    HitIs(r2, c, [c, c]);
    MissIs(r3, c, [c, c, c], r4);
    FourSteps(r0, c, r1, r2, r3, r4);
    assert [c, n] + [c] == [c, n, c];
  }

  lemma HitIs(r: Run, c: Unit, wc: seq<Unit>)
    requires wc == r.w + [c] && wc in r.dict
    ensures Step(r, c) == Some(r.(w := wc))
  {
  }

  lemma MissIs(r: Run, c: Unit, wc: seq<Unit>, s: Run)
    requires wc == r.w + [c] && wc !in r.dict && r.w in r.dict
    requires s == Run(r.dict[wc := r.index], [c], r.index + 1, r.codes + [r.dict[r.w]], r.added + [wc])
    ensures Step(r, c) == Some(s)
  {
  }

  lemma FourSteps(r0: Run, c: Unit, r1: Run, r2: Run, r3: Run, r4: Run)
    requires Step(r0, c) == Some(r1) && Step(r1, c) == Some(r2)
    requires Step(r2, c) == Some(r3) && Step(r3, c) == Some(r4)
    ensures Steps(r0, [c, c, c, c]) == Some(r4)
  {
    var inp := [c, c, c, c];
    StepsSnoc(r0, inp, 0);
    StepsSnoc(r0, inp, 1);
    StepsSnoc(r0, inp, 2);
    StepsSnoc(r0, inp, 3);
    assert inp[..0] == [];
    assert inp[..4] == inp;
  }

  /** Every state the loop reaches keeps the invariant; a loop that failed has met an unseeded unit. */
  lemma {:induction false} Reached(n: int, inp: seq<Unit>, k: nat)
    requires k <= |inp|
    ensures Steps(Initial(n), inp[..k]).Some? ==>
      var r := Steps(Initial(n), inp[..k]).value;
      Inv(inp, k, n, r.dict, r.w, r.index, r.codes, r.added)
    ensures Steps(Initial(n), inp[..k]).None? ==> exists j :: 0 <= j < |inp| && !Seeded(n, inp[j])
    decreases k
  {
    if k == 0 {
      assert inp[..0] == [];
      SeedsKeys(n);
      Start(inp, n, Seeds(n));
    } else {
      Reached(n, inp, k - 1);
      StepsSnoc(Initial(n), inp, k - 1);
      var prev := Steps(Initial(n), inp[..k - 1]);
      if prev.Some? {
        StepKeepsInv(inp, k - 1, n, prev.value);
      }
    }
  }

  /** One turn keeps the invariant, or fails on an unseeded unit. */
  lemma StepKeepsInv(inp: seq<Unit>, k: nat, n: int, r: Run)
    requires k < |inp| && Inv(inp, k, n, r.dict, r.w, r.index, r.codes, r.added)
    ensures Step(r, inp[k]).Some? ==>
      var s := Step(r, inp[k]).value;
      Inv(inp, k + 1, n, s.dict, s.w, s.index, s.codes, s.added)
    ensures Step(r, inp[k]).None? ==> exists j :: 0 <= j < |inp| && !Seeded(n, inp[j])
  {
    var c := inp[k];
    if r.w + [c] in r.dict {
      HitStep(inp, k, n, r.dict, r.w, r.index, r.codes, r.added);
    } else if r.w !in r.dict {
      StuckHasUnseeded(inp, k, n, r.dict, r.w);
    } else {
      MissStep(inp, k, n, r.dict, r.w, r.index, r.codes, r.added);
    }
  }

  /** The strings the loop adds to the dictionary (none when it fails). */
  function LzwAdded(n: int, inp: seq<Unit>): seq<seq<Unit>>
  {
    match Steps(Initial(n), inp)
    case None => []
    case Some(r) => r.added
  }

  /**
   * What the codes mean: compression fails exactly when the input holds an
   * unseeded unit; otherwise the strings of the codes spell the input, each
   * code was known when it was emitted, and each string added is the string of
   * one code followed by the first unit of the next, which is what lets a
   * decoder rebuild the dictionary.
   */
  lemma LzwCodesMeaning(n: int, inp: seq<Unit>)
    ensures LzwCodes(n, inp).None? <==> exists j :: 0 <= j < |inp| && !Seeded(n, inp[j])
    ensures LzwCodes(n, inp).Some? ==>
      var codes, added := LzwCodes(n, inp).value, LzwAdded(n, inp);
      && Expand(n, added, codes) == inp
      && EmittedKnown(n, codes)
      && (|inp| > 0 ==> Growth(n, added, codes))
      && |codes| == (if |inp| == 0 then 0 else |added| + 1)
  {
    Reached(n, inp, |inp|);
    assert inp[..|inp|] == inp;
    var steps := Steps(Initial(n), inp);
    if steps.Some? {
      var r := steps.value;
      if r.w == [] {
        EmptyEnd(inp, n, r.dict, r.index, r.codes, r.added);
      } else if r.w !in r.dict {
        EndHasUnseeded(inp, n, r.dict, r.w);
      } else {
        AllSeeded(inp, n, r.dict, r.w);
        FlushStep(inp, n, r.dict, r.w, r.index, r.codes, r.added);
      }
    }
  }

  /** The output: one `(char)` unit per emitted code. */
  ghost predicate Emits(out: seq<Unit>, codes: seq<int>)
  {
    |out| == |codes| && forall j :: 0 <= j < |codes| ==> out[j] == ToUnit(codes[j])
  }

  /** The seeding loop: `dictionary.put("" + (char) i, i)` for 0 <= i < dictSize. */
  method Seed(dictSize: Int32) returns (dict: map<seq<Unit>, int>)
    ensures dict == Seeds(dictSize)
    ensures DictMeaning(dictSize, [], dict)
    ensures forall key :: key in dict ==> |key| == 1
  {
    dict := map[];
    var i := 0;
    while i < dictSize
      invariant 0 <= i <= Max(0, dictSize)
      invariant dict == Seeds(i)
    {
      SeedsNext(i);
      dict := dict[[ToUnit(i)] := i];
      i := i + 1;
    }
    SeedsKeys(dictSize);
  }

  lemma SeedsNext(i: nat)
    ensures Seeds(i + 1) == Seeds(i)[[ToUnit(i)] := i]
  {
  }

  /**
   * One turn of the loop over the units, for the unit c at position k: when
   * w + c is a key, w becomes w + c and nothing is emitted; otherwise the
   * code of w is emitted, w + c is added under `index++` and w becomes c;
   * `ok` is false where `dictionary.get(w)` is null.
   */
  method Consume(inp: seq<Unit>, k: nat, dict: map<seq<Unit>, int>, w: seq<Unit>, index: int,
                 out: seq<Unit>, ghost codes: seq<int>, ghost added: seq<seq<Unit>>)
    returns (ok: bool, dict': map<seq<Unit>, int>, w': seq<Unit>, index': int, out': seq<Unit>,
             ghost codes': seq<int>, ghost added': seq<seq<Unit>>)
    requires k < |inp| && Emits(out, codes)
    ensures var wc := w + [inp[k]];
      && (wc in dict ==> ok && dict' == dict && w' == wc && index' == index && out' == out
                         && codes' == codes && added' == added)
      && (wc !in dict && w !in dict ==> !ok)
      && (wc !in dict && w in dict ==>
            && ok && dict' == dict[wc := index] && w' == [inp[k]] && index' == index + 1
            && out' == out + [ToUnit(dict[w])] && codes' == codes + [dict[w]] && added' == added + [wc])
    ensures ok ==> Emits(out', codes')
    ensures Step(Run(dict, w, index, codes, added), inp[k]) ==
      if ok then Some(Run(dict', w', index', codes', added')) else None
  {
    var c := inp[k];
    var wc := w + [c];
    if wc in dict {
      return true, dict, wc, index, out, codes, added;
    }
    if w !in dict {
      // `dictionary.get(w)` is null: the unboxing throws
      return false, dict, w, index, out, codes, added;
    }
    var i := dict[w];
    return true, dict[wc := index], [c], index + 1, out + [ToUnit(i)], codes + [i], added + [wc];
  }

  /** After the loop: emit the code of a pending w, or fail when w is not a key. */
  method Flush(dict: map<seq<Unit>, int>, w: seq<Unit>, index: int,
               out: seq<Unit>, ghost codes: seq<int>, ghost added: seq<seq<Unit>>)
    returns (r: Option<seq<Unit>>, ghost codes': seq<int>)
    requires Emits(out, codes)
    ensures w == [] ==> r == Some(out) && codes' == codes
    ensures w != [] && w !in dict ==> r.None?
    ensures w != [] && w in dict ==> r == Some(out + [ToUnit(dict[w])]) && codes' == codes + [dict[w]]
    ensures r.Some? ==> Emits(r.value, codes')
    ensures Finish(Run(dict, w, index, codes, added)) == if r.Some? then Some(codes') else None
  {
    if w == [] {
      return Some(out), codes;
    }
    if w !in dict {
      return None, codes;
    }
    var i := dict[w];
    return Some(out + [ToUnit(i)]), codes + [i];
  }

  /** The loop over the units, from the freshly seeded dictionary; it stops at the first failure. */
  method Scan(inp: seq<Unit>, n: int, dict0: map<seq<Unit>, int>)
    returns (ok: bool, dict: map<seq<Unit>, int>, w: seq<Unit>, index: int, out: seq<Unit>,
             ghost codes: seq<int>, ghost added: seq<seq<Unit>>)
    ensures ok ==> Emits(out, codes)
    ensures Steps(Run(dict0, [], n, [], []), inp) ==
      if ok then Some(Run(dict, w, index, codes, added)) else None
  {
    ghost var start := Run(dict0, [], n, [], []);
    dict, w, index, out, codes, added := dict0, [], n, [], [], [];
    assert inp[..0] == [];
    for k := 0 to |inp|
      invariant Emits(out, codes)
      invariant Steps(start, inp[..k]) == Some(Run(dict, w, index, codes, added))
    {
      ghost var before := Run(dict, w, index, codes, added);
      ok, dict, w, index, out, codes, added := Consume(inp, k, dict, w, index, out, codes, added);
      StepsExtend(start, inp, k, before);
      if !ok {
        StepsFailed(start, inp, k + 1);
        return;
      }
    }
    assert inp[..|inp|] == inp;
    ok := true;
  }

  /** The compression over the already-encoded units. */
  method CompressUnits(inp: seq<Unit>, dictSize: Int32)
    returns (r: Option<seq<Unit>>, ghost codes: seq<int>, ghost added: seq<seq<Unit>>)
    ensures LzwCodes(dictSize, inp) == if r.Some? then Some(codes) else None
    ensures r.Some? ==> Emits(r.value, codes) && added == LzwAdded(dictSize, inp)
    ensures r.None? <==> exists j :: 0 <= j < |inp| && !Seeded(dictSize, inp[j])
    ensures r.Some? ==> Expand(dictSize, added, codes) == inp
    ensures r.Some? ==> EmittedKnown(dictSize, codes)
    ensures r.Some? ==> |inp| > 0 ==> Growth(dictSize, added, codes)
    ensures r.Some? ==> |codes| == (if |inp| == 0 then 0 else |added| + 1)
  {
    var dictionary := Seed(dictSize);
    var ok, w, index, out;
    ok, dictionary, w, index, out, codes, added := Scan(inp, dictSize, dictionary);
    LzwCodesMeaning(dictSize, inp);
    if !ok {
      return None, codes, added;
    }
    r, codes := Flush(dictionary, w, index, out, codes, added);
  }

  /** `LZW.compress(in, args)`: encode, then compress; None where the source throws. */
  method Compress(text: seq<Unit>, dictArg: Option<Int32>)
    returns (r: Option<seq<Unit>>, ghost codes: seq<int>, ghost added: seq<seq<Unit>>)
    ensures LzwCodes(DictSize(dictArg), Strings.Encode(text)) == if r.Some? then Some(codes) else None
    ensures r.Some? ==> Emits(r.value, codes)
    ensures r.None? <==> exists j :: 0 <= j < |Strings.Encode(text)| && !Seeded(DictSize(dictArg), Strings.Encode(text)[j])
    ensures r.Some? ==> DecodeCodes(DictSize(dictArg), codes) == Some(Strings.Encode(text))
  {
    var dictSize := DictSize(dictArg);
    var inp := Strings.Uft8Encode(text);
    r, codes, added := CompressUnits(inp, dictSize);
    if r.Some? {
      Strings.EncodeLength(text);
      DecodeOfCompressed(dictSize, added, codes, inp);
    }
  }

  // ---------------------------------------------------------------------------
  // Decoding: the partner that shows the codes lose nothing
  // ---------------------------------------------------------------------------

  /**
   * The entries a decoder rebuilds after reading the first m + 1 codes: the
   * string of code m - 1 followed by the first unit of the string of code m,
   * which, when code m is the very entry being formed, is its own first unit.
   */
  function Table(n: int, codes: seq<int>, m: nat): (t: seq<seq<Unit>>)
    requires m < |codes|
    ensures |t| == m
    decreases m
  {
    if m == 0 then []
    else
      var t := Table(n, codes, m - 1);
      var prev := Str(n, t, codes[m - 1]);
      var next := if codes[m] < n + |t| then First(Str(n, t, codes[m])) else First(prev);
      t + [prev + [next]]
  }

  /** An LZW decoder: None when a code refers to an entry not yet known. */
  function DecodeCodes(n: int, codes: seq<int>): Option<seq<Unit>>
  {
    if !EmittedKnown(n, codes) then None
    else if |codes| == 0 then Some([])
    else Some(Expand(n, Table(n, codes, |codes| - 1), codes))
  }

  lemma StrPrefix(n: int, added: seq<seq<Unit>>, i: nat, code: int)
    requires i <= |added| && code < n + i
    ensures Str(n, added[..i], code) == Str(n, added, code)
  {
  }

  lemma {:induction false} ExpandSame(n: int, a: seq<seq<Unit>>, b: seq<seq<Unit>>, codes: seq<int>)
    requires forall j :: 0 <= j < |codes| ==> Str(n, a, codes[j]) == Str(n, b, codes[j])
    ensures Expand(n, a, codes) == Expand(n, b, codes)
    decreases |codes|
  {
    if |codes| > 0 {
      ExpandSame(n, a, b, codes[..|codes| - 1]);
    }
  }

  lemma StrNonEmpty(n: int, added: seq<seq<Unit>>, codes: seq<int>, code: int)
    requires Growth(n, added, codes) && 0 <= code < n + |added|
    ensures |Str(n, added, code)| > 0
  {
    if n <= code {
      var i := code - n;
      assert added[i] == Str(n, added, codes[i]) + [First(Str(n, added, codes[i + 1]))];
    }
  }

  /** The decoder rebuilds exactly the entries the compressor added. */
  lemma {:induction false} TableIsAdded(n: int, added: seq<seq<Unit>>, codes: seq<int>, m: nat)
    requires Growth(n, added, codes) && EmittedKnown(n, codes) && m <= |added|
    ensures Table(n, codes, m) == added[..m]
    decreases m
  {
    if m > 0 {
      TableIsAdded(n, added, codes, m - 1);
      TableStep(n, added, codes, m);
    }
  }

  /** One entry more: if the decoder's first m - 1 entries are the added ones, so is the next. */
  lemma TableStep(n: int, added: seq<seq<Unit>>, codes: seq<int>, m: nat)
    requires Growth(n, added, codes) && EmittedKnown(n, codes) && 0 < m <= |added|
    requires Table(n, codes, m - 1) == added[..m - 1]
    ensures Table(n, codes, m) == added[..m]
  {
    var t := added[..m - 1];
    var prev := Str(n, t, codes[m - 1]);
    var next := if codes[m] < n + |t| then First(Str(n, t, codes[m])) else First(prev);
    assert Table(n, codes, m) == t + [prev + [next]];
    PrevEntry(n, added, codes, m);
    NextUnit(n, added, codes, m);
    assert added[m - 1] == prev + [next];
    assert added[..m] == t + [added[m - 1]];
  }

  /** The string the decoder reads for code m - 1 is the one the compressor had. */
  lemma PrevEntry(n: int, added: seq<seq<Unit>>, codes: seq<int>, m: nat)
    requires EmittedKnown(n, codes) && 0 < m <= |added| && m < |codes|
    ensures Str(n, added[..m - 1], codes[m - 1]) == Str(n, added, codes[m - 1])
  {
    assert 0 <= codes[m - 1] < n + (m - 1);
    StrPrefix(n, added, m - 1, codes[m - 1]);
  }

  /**
   * The unit the decoder appends is the first of code m's string: read from
   * the table when the code is known, and otherwise (code m is the entry
   * being formed) the first unit of code m - 1's string.
   */
  lemma NextUnit(n: int, added: seq<seq<Unit>>, codes: seq<int>, m: nat)
    requires Growth(n, added, codes) && EmittedKnown(n, codes) && 0 < m <= |added|
    ensures var t := added[..m - 1];
      (if codes[m] < n + |t| then First(Str(n, t, codes[m])) else First(Str(n, t, codes[m - 1])))
      == First(Str(n, added, codes[m]))
  {
    var t := added[..m - 1];
    assert 0 <= codes[m] < n + m;
    if codes[m] < n + (m - 1) {
      StrPrefix(n, added, m - 1, codes[m]);
    } else {
      PrevEntry(n, added, codes, m);
      var prev := Str(n, added, codes[m - 1]);
      assert added[m - 1] == prev + [First(Str(n, added, codes[m]))];
      assert Str(n, added, codes[m]) == added[m - 1];
      StrNonEmpty(n, added, codes, codes[m - 1]);
      assert First(Str(n, added, codes[m])) == prev[0];
    }
  }

  /** Decoding the codes of a run of the loop gives back its input. */
  lemma DecodeOfCompressed(n: int, added: seq<seq<Unit>>, codes: seq<int>, inp: seq<Unit>)
    requires EmittedKnown(n, codes) && Expand(n, added, codes) == inp
    requires |inp| > 0 ==> Growth(n, added, codes)
    requires |inp| == 0 ==> codes == []
    ensures DecodeCodes(n, codes) == Some(inp)
  {
    if |inp| > 0 {
      TableIsAdded(n, added, codes, |added|);
      assert added[..|added|] == added;
    }
  }

  /**
   * The units `compress` returns, LZW-decoded and then UTF-8-decoded, give the
   * text back, as long as no code reached 0x10000; beyond that `(char) i`
   * truncates and the output stops determining the text.
   */
  lemma CompressedDecodes(text: seq<Unit>, n: int, added: seq<seq<Unit>>, codes: seq<int>, out: seq<Unit>)
    requires |out| == |codes| && forall j :: 0 <= j < |codes| ==> out[j] == ToUnit(codes[j])
    requires EmittedKnown(n, codes) && Expand(n, added, codes) == Strings.Encode(text)
    requires |text| > 0 ==> Growth(n, added, codes)
    requires |text| == 0 ==> codes == []
    requires n + |codes| <= 0x1_0000
    ensures DecodeCodes(n, out) == Some(Strings.Encode(text))
    ensures Strings.Decode(Strings.Encode(text)) == Some(text)
  {
    Strings.EncodeLength(text);
    assert out == codes;
    DecodeOfCompressed(n, added, codes, Strings.Encode(text));
    Strings.DecodeEncode(text);
  }

  /** With the default dictionary, or any of at least 0xF0 entries, compression never throws. */
  lemma NeverFailsFromF0(text: seq<Unit>, n: int)
    requires n >= 0xF0
    ensures forall j :: 0 <= j < |Strings.Encode(text)| ==> Seeded(n, Strings.Encode(text)[j])
  {
    Strings.EncodeBelowF0(text);
  }

  /** The 32-bit wrap-around of `index++` never changes an emitted `(char)` unit. */
  lemma ToUnitOfWrap32(x: int)
    ensures ToUnit(Wrap32(x)) == ToUnit(x)
  {
  }
}
