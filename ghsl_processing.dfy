/** The cell aggregator of python/ghsl_processing.py: raster pixels carrying land-use codes are
    grouped by hexagonal cell, each cell keeps the most common code (ties broken by a coin),
    and the code decides whether the cell is residential. */
module GhslProcessing {
  import opened Wrappers

  type H3Index = nat
  type Code = int

  // ---------------------------------------------------------------------------------------
  // count_occurances_break_tie

  function Count(l: seq<Code>, v: Code): nat {
    multiset(l)[v]
  }

  predicate NoDuplicates<T(==)>(s: seq<T>) {
    forall i, j :: 0 <= i < j < |s| ==> s[i] != s[j]
  }

  /** The position of the first occurrence of v in l. */
  function FirstIndex(l: seq<Code>, v: Code): (k: nat)
    requires v in l
    ensures k < |l| && l[k] == v && v !in l[..k]
  {
    if l[0] == v then 0
    else
      var k := FirstIndex(l[1..], v);
      assert l[..k + 1] == [l[0]] + l[1..][..k];
      k + 1
  }

  /** A position holding v with no v before it is the first occurrence. */
  lemma FirstIndexUnique(l: seq<Code>, v: Code, k: nat)
    requires k < |l| && l[k] == v && v !in l[..k]
    ensures FirstIndex(l, v) == k
  {
  }

  /** The distinct values of l in order of first occurrence: the key order of `Counter(l)`. */
  function Distinct(l: seq<Code>): (d: seq<Code>)
    ensures forall v :: v in d <==> v in l
    ensures NoDuplicates(d)
  {
    if l == [] then []
    else
      var d := Distinct(l[..|l| - 1]);
      assert forall v :: v in l <==> v in l[..|l| - 1] || v == l[|l| - 1] by {
        assert l == l[..|l| - 1] + [l[|l| - 1]];
      }
      if l[|l| - 1] in d then d else d + [l[|l| - 1]]
  }

  /** `Distinct` lists the values in the order they are first seen in l. */
  lemma {:induction false} DistinctFirstSeenOrder(l: seq<Code>)
    ensures forall i, j :: 0 <= i < j < |Distinct(l)| ==> FirstIndex(l, Distinct(l)[i]) < FirstIndex(l, Distinct(l)[j])
  {
    if l != [] {
      var init := l[..|l| - 1];
      var x := l[|l| - 1];
      var d := Distinct(init);
      DistinctFirstSeenOrder(init);
      assert l == init + [x];
      forall v | v in init ensures FirstIndex(l, v) == FirstIndex(init, v) {
        var k := FirstIndex(init, v);
        assert l[..k] == init[..k];
        FirstIndexUnique(l, v, k);
      }
      if x !in d {
        assert l[..|init|] == init;
        FirstIndexUnique(l, x, |init|);
        assert Distinct(l) == d + [x];
      } else {
        assert Distinct(l) == d;
      }
    }
  }

  /** Index in d of the first value with the highest count in l. */
  function FirstMax(d: seq<Code>, l: seq<Code>): (k: nat)
    requires d != []
    ensures k < |d|
    ensures forall j :: 0 <= j < |d| ==> Count(l, d[j]) <= Count(l, d[k])
    ensures forall j :: 0 <= j < k ==> Count(l, d[j]) < Count(l, d[k])
  {
    if |d| == 1 then 0
    else
      var k := FirstMax(d[..|d| - 1], l);
      if Count(l, d[|d| - 1]) > Count(l, d[k]) then |d| - 1 else k
  }

  function RemoveAt<T>(s: seq<T>, k: nat): (r: seq<T>)
    requires k < |s|
    ensures |r| == |s| - 1
  {
    s[..k] + s[k + 1..]
  }

  /** The elements of s other than s[k], for s without duplicates. */
  lemma RemoveAtMembers(s: seq<Code>, k: nat)
    requires k < |s| && NoDuplicates(s)
    ensures forall v :: v in RemoveAt(s, k) <==> v in s && v != s[k]
  {
    var r := RemoveAt(s, k);
    forall v ensures v in r <==> v in s && v != s[k] {
      if v in r {
        var j :| 0 <= j < |r| && r[j] == v;
        if j < k { assert s[j] == v; } else { assert s[j + 1] == v; }
      }
      if v in s && v != s[k] {
        var j :| 0 <= j < |s| && s[j] == v;
        if j < k { assert r[j] == v; } else { assert r[j - 1] == v; }
      }
    }
  }

  /** `Counter(l).most_common(2)`: (value, count) pairs, highest count first; among equal counts
      the value seen first comes first (the sort is stable over first-occurrence order). */
  function MostCommon2(l: seq<Code>): (freq: seq<(Code, nat)>)
    ensures |freq| <= 2
  {
    var d := Distinct(l);
    if d == [] then []
    else
      var k := FirstMax(d, l);
      var top := (d[k], Count(l, d[k]));
      if |d| == 1 then [top]
      else
        var rest := RemoveAt(d, k);
        var k2 := FirstMax(rest, l);
        [top, (rest[k2], Count(l, rest[k2]))]
  }

  /** What `most_common(2)` promises: no pair for an empty list, one pair when only one value
      occurs, otherwise the most common value and the most common among the others, each with
      its count. */
  lemma MostCommon2Ranks(l: seq<Code>)
    ensures var freq := MostCommon2(l);
      (|freq| == 0 <==> l == []) &&
      (forall i :: 0 <= i < |freq| ==> freq[i].0 in l && freq[i].1 == Count(l, freq[i].0)) &&
      (|freq| > 0 ==> forall v :: Count(l, v) <= freq[0].1) &&
      (|freq| == 1 ==> forall v :: v in l ==> v == freq[0].0) &&
      (|freq| == 2 ==> freq[0].0 != freq[1].0 && forall v :: v != freq[0].0 ==> Count(l, v) <= freq[1].1)
  {
    var d := Distinct(l);
    if l != [] {
      assert l[0] in d;
      var k := FirstMax(d, l);
      forall v ensures Count(l, v) <= Count(l, d[k]) {
        if v in l {
          var j :| 0 <= j < |d| && d[j] == v;
        }
      }
      if |d| == 1 {
        forall v | v in l ensures v == d[k] {
          var j :| 0 <= j < |d| && d[j] == v;
        }
        assert MostCommon2(l) == [(d[k], Count(l, d[k]))];
      } else {
        var rest := RemoveAt(d, k);
        RemoveAtMembers(d, k);
        var k2 := FirstMax(rest, l);
        forall v | v != d[k] ensures Count(l, v) <= Count(l, rest[k2]) {
          if v in l {
            assert v in rest;
            var j :| 0 <= j < |rest| && rest[j] == v;
          }
        }
        assert MostCommon2(l) == [(d[k], Count(l, d[k])), (rest[k2], Count(l, rest[k2]))];
      }
    } else {
      assert MostCommon2(l) == [];
    }
  }

  /** `most_common(2)` breaks equal counts by first occurrence: its first pair holds the
      earliest-seen value of highest count. */
  lemma MostCommon2FirstSeen(l: seq<Code>)
    ensures var freq := MostCommon2(l);
      |freq| > 0 ==> forall v :: v in l && v != freq[0].0 && Count(l, v) == freq[0].1 ==>
        FirstIndex(l, freq[0].0) < FirstIndex(l, v)
  {
    var d := Distinct(l);
    DistinctFirstSeenOrder(l);
    if d != [] {
      var k := FirstMax(d, l);
      assert MostCommon2(l)[0] == (d[k], Count(l, d[k]));
      EarliestOfMax(l, d, k);
    }
  }

  /** In a first-seen ordering of the values, the first index of highest count holds the
      earliest-seen value of that count. */
  lemma EarliestOfMax(l: seq<Code>, d: seq<Code>, k: nat)
    requires forall v :: v in d <==> v in l
    requires forall i, j :: 0 <= i < j < |d| ==> FirstIndex(l, d[i]) < FirstIndex(l, d[j])
    requires k < |d|
    requires forall j :: 0 <= j < k ==> Count(l, d[j]) < Count(l, d[k])
    ensures forall v :: v in l && v != d[k] && Count(l, v) == Count(l, d[k]) ==>
      FirstIndex(l, d[k]) < FirstIndex(l, v)
  {
    forall v | v in l && v != d[k] && Count(l, v) == Count(l, d[k])
      ensures FirstIndex(l, d[k]) < FirstIndex(l, v)
    {
      var j :| 0 <= j < |d| && d[j] == v;
      assert !(j < k);
    }
  }

  /** On a tie, the second pair of `most_common(2)` holds the next value of that count in order
      of first occurrence: every other value of that count was seen after both. */
  lemma MostCommon2TieFirstSeen(l: seq<Code>)
    ensures var freq := MostCommon2(l);
      |freq| == 2 && freq[0].1 == freq[1].1 ==>
        FirstIndex(l, freq[0].0) < FirstIndex(l, freq[1].0) &&
        forall v :: v in l && v != freq[0].0 && v != freq[1].0 && Count(l, v) == freq[0].1 ==>
          FirstIndex(l, freq[1].0) < FirstIndex(l, v)
  {
    var d := Distinct(l);
    if |d| > 1 {
      var k := FirstMax(d, l);
      var rest := RemoveAt(d, k);
      var k2 := FirstMax(rest, l);
      assert MostCommon2(l) == [(d[k], Count(l, d[k])), (rest[k2], Count(l, rest[k2]))];
      if Count(l, rest[k2]) == Count(l, d[k]) {
        DistinctFirstSeenOrder(l);
        var m := SecondIndex(l, d, k, k2);
        forall v | v in l && v != d[k] && v != d[m] && Count(l, v) == Count(l, d[k])
          ensures FirstIndex(l, d[m]) < FirstIndex(l, v)
        {
          var j :| 0 <= j < |d| && d[j] == v;
          assert m < j;
        }
      }
    }
  }

  /** When the highest count among the values other than d[k] equals that of d[k], the first
      such value sits at an index m after k, and every other index of that count is after m. */
  lemma SecondIndex(l: seq<Code>, d: seq<Code>, k: nat, k2: nat) returns (m: nat)
    requires k < |d| && forall j :: 0 <= j < k ==> Count(l, d[j]) < Count(l, d[k])
    requires k2 < |d| - 1 && forall j :: 0 <= j < k2 ==> Count(l, RemoveAt(d, k)[j]) < Count(l, RemoveAt(d, k)[k2])
    requires Count(l, RemoveAt(d, k)[k2]) == Count(l, d[k])
    ensures k < m < |d| && d[m] == RemoveAt(d, k)[k2]
    ensures forall j :: 0 <= j < |d| && j != k && j != m && Count(l, d[j]) == Count(l, d[k]) ==> m < j
  {
    var rest := RemoveAt(d, k);
    assert k <= k2;
    m := k2 + 1;
    assert rest[k2] == d[m];
    forall j | 0 <= j < |d| && j != k && j != m && Count(l, d[j]) == Count(l, d[k])
      ensures m < j
    {
      var jr := if j < k then j else j - 1;
      assert rest[jr] == d[j];
    }
  }

  /** `count_occurances_break_tie(l)`. `coin` is the outcome of `np.random.choice` between the two
      tied values (true: the first). An empty list raises IndexError, modelled as None. */
  function CountOccurrencesBreakTie(l: seq<Code>, coin: bool): (r: Option<Code>)
    ensures r.None? <==> l == []
    ensures r.Some? ==> r.value in l
  {
    MostCommon2Ranks(l);
    var freq := MostCommon2(l);
    if |freq| == 1 then Some(freq[0].0)
    else if |freq| == 0 then None
    else if freq[0].1 != freq[1].1 then Some(freq[0].0)
    else Some(if coin then freq[0].0 else freq[1].0)
  }

  /** The vote fails only on the empty list; otherwise it returns a value of the list that
      occurs at least as often as any other value, whatever the coin. */
  lemma VoteIsMostFrequent(l: seq<Code>, coin: bool)
    ensures CountOccurrencesBreakTie(l, coin).None? <==> l == []
    ensures l != [] ==> CountOccurrencesBreakTie(l, coin).value in l
    ensures l != [] ==> forall v :: Count(l, v) <= Count(l, CountOccurrencesBreakTie(l, coin).value)
  {
    MostCommon2Ranks(l);
  }

  /** A list holding a single distinct value votes for that value. */
  lemma VoteSingleValue(l: seq<Code>, v: Code, coin: bool)
    requires l != [] && forall i :: 0 <= i < |l| ==> l[i] == v
    ensures CountOccurrencesBreakTie(l, coin) == Some(v)
  {
    MostCommon2Ranks(l);
  }

  /** A value counted strictly more often than every other value wins, whatever the coin. */
  lemma VoteStrictWinner(l: seq<Code>, w: Code, coin: bool)
    requires w in l
    requires forall v :: v != w ==> Count(l, v) < Count(l, w)
    ensures CountOccurrencesBreakTie(l, coin) == Some(w)
  {
    VoteIsMostFrequent(l, coin);
    var r := CountOccurrencesBreakTie(l, coin).value;
    assert Count(l, w) <= Count(l, r);
  }

  /** On a tie of the two most common counts the coin selects between two different values,
      the first or the second of `most_common(2)`; without a tie the coin does not matter. */
  lemma VoteTieBreak(l: seq<Code>)
    ensures var freq := MostCommon2(l);
      |freq| == 2 && freq[0].1 == freq[1].1 ==>
        CountOccurrencesBreakTie(l, true) == Some(freq[0].0) &&
        CountOccurrencesBreakTie(l, false) == Some(freq[1].0) &&
        freq[0].0 != freq[1].0
    ensures var freq := MostCommon2(l);
      !(|freq| == 2 && freq[0].1 == freq[1].1) ==>
        CountOccurrencesBreakTie(l, true) == CountOccurrencesBreakTie(l, false)
  {
    MostCommon2Ranks(l);
  }

  /** The vote returns one of the two earliest-seen values of highest count: a value of that
      count with two others of that count seen before it never wins. */
  lemma VoteFirstSeen(l: seq<Code>, coin: bool, u: Code, u': Code)
    requires l != []
    requires u in l && u' in l && u != u'
    requires Count(l, u) == Count(l, CountOccurrencesBreakTie(l, coin).value)
    requires Count(l, u') == Count(l, CountOccurrencesBreakTie(l, coin).value)
    ensures CountOccurrencesBreakTie(l, coin).value in l
    ensures !(FirstIndex(l, u) < FirstIndex(l, CountOccurrencesBreakTie(l, coin).value) &&
              FirstIndex(l, u') < FirstIndex(l, CountOccurrencesBreakTie(l, coin).value))
  {
    VoteIsMostFrequent(l, coin);
    MostCommon2Ranks(l);
    MostCommon2FirstSeen(l);
    MostCommon2TieFirstSeen(l);
  }

  // ---------------------------------------------------------------------------------------
  // tif_to_h3

  /** One pixel of the reprojected band: its position and its classification code. */
  datatype Pixel = Pixel(row: nat, col: nat, code: Code)

  /** `rel_vals`: 11-15 built residential, 21-25 built non-residential. */
  const RelevantValues: seq<Code> := [11, 12, 13, 14, 15, 21, 22, 23, 24, 25]

  predicate IsRelevant(v: Code) {
    v in RelevantValues
  }

  /** The codes of the relevant pixels, in scan order. */
  function RelevantCodes(pixels: seq<Pixel>): (codes: seq<Code>)
    ensures forall i :: 0 <= i < |codes| ==> IsRelevant(codes[i])
  {
    if pixels == [] then []
    else
      var p := pixels[|pixels| - 1];
      RelevantCodes(pixels[..|pixels| - 1]) + (if IsRelevant(p.code) then [p.code] else [])
  }

  /** The codes of the relevant pixels that fall into `cell`, in scan order. */
  function CodesOf(pixels: seq<Pixel>, cellOf: (nat, nat) -> H3Index, cell: H3Index): seq<Code> {
    if pixels == [] then []
    else
      var p := pixels[|pixels| - 1];
      CodesOf(pixels[..|pixels| - 1], cellOf, cell)
        + (if IsRelevant(p.code) && cellOf(p.row, p.col) == cell then [p.code] else [])
  }

  /** The cells of the relevant pixels in order of first appearance: the dict's key order. */
  function CellOrder(pixels: seq<Pixel>, cellOf: (nat, nat) -> H3Index): seq<H3Index> {
    if pixels == [] then []
    else
      var p := pixels[|pixels| - 1];
      var keys := CellOrder(pixels[..|pixels| - 1], cellOf);
      if IsRelevant(p.code) && cellOf(p.row, p.col) !in keys then keys + [cellOf(p.row, p.col)] else keys
  }

  /** A cell is a key exactly when it has received at least one code. */
  lemma {:induction false} CellOrderIffCodes(pixels: seq<Pixel>, cellOf: (nat, nat) -> H3Index, k: H3Index)
    ensures k in CellOrder(pixels, cellOf) <==> CodesOf(pixels, cellOf, k) != []
  {
    if pixels != [] {
      CellOrderIffCodes(pixels[..|pixels| - 1], cellOf, k);
    }
  }

  /** A cell is a key exactly when some relevant pixel falls into it. */
  lemma {:induction false} CellOrderIffPixel(pixels: seq<Pixel>, cellOf: (nat, nat) -> H3Index, k: H3Index)
    ensures k in CellOrder(pixels, cellOf) <==>
      exists i :: 0 <= i < |pixels| && IsRelevant(pixels[i].code) && cellOf(pixels[i].row, pixels[i].col) == k
  {
    if pixels != [] {
      var init := pixels[..|pixels| - 1];
      CellOrderIffPixel(init, cellOf, k);
      if k in CellOrder(init, cellOf) {
        var i :| 0 <= i < |init| && IsRelevant(init[i].code) && cellOf(init[i].row, init[i].col) == k;
        assert pixels[i] == init[i];
      }
      if exists i :: 0 <= i < |pixels| && IsRelevant(pixels[i].code) && cellOf(pixels[i].row, pixels[i].col) == k {
        var i :| 0 <= i < |pixels| && IsRelevant(pixels[i].code) && cellOf(pixels[i].row, pixels[i].col) == k;
        if i < |init| {
          assert init[i] == pixels[i];
        }
      }
    }
  }

  /** The lists hold only relevant codes. */
  lemma {:induction false} CodesOfRelevant(pixels: seq<Pixel>, cellOf: (nat, nat) -> H3Index, k: H3Index)
    ensures forall c :: c in CodesOf(pixels, cellOf, k) ==> IsRelevant(c)
  {
    if pixels != [] {
      CodesOfRelevant(pixels[..|pixels| - 1], cellOf, k);
    }
  }

  /** No cell is inserted into the dict twice. */
  lemma {:induction false} CellOrderNoDuplicates(pixels: seq<Pixel>, cellOf: (nat, nat) -> H3Index)
    ensures NoDuplicates(CellOrder(pixels, cellOf))
  {
    if pixels != [] {
      CellOrderNoDuplicates(pixels[..|pixels| - 1], cellOf);
    }
  }

  /** Total length of the lists stored under `keys`. */
  function SumLengths(keys: seq<H3Index>, pixels: seq<Pixel>, cellOf: (nat, nat) -> H3Index): nat {
    if keys == [] then 0
    else |CodesOf(pixels, cellOf, keys[|keys| - 1])| + SumLengths(keys[..|keys| - 1], pixels, cellOf)
  }

  lemma {:induction false} SumLengthsStep(keys: seq<H3Index>, pixels: seq<Pixel>, p: Pixel, cellOf: (nat, nat) -> H3Index)
    requires NoDuplicates(keys)
    ensures SumLengths(keys, pixels + [p], cellOf) ==
      SumLengths(keys, pixels, cellOf) + (if IsRelevant(p.code) && cellOf(p.row, p.col) in keys then 1 else 0)
  {
    if keys != [] {
      var init := keys[..|keys| - 1];
      SumLengthsStep(init, pixels, p, cellOf);
      assert (pixels + [p])[..|pixels|] == pixels;
      assert keys == init + [keys[|keys| - 1]];
    }
  }

  /** Every relevant pixel is counted exactly once: the list lengths sum to their number. */
  lemma {:induction false} UrbanMapSize(pixels: seq<Pixel>, cellOf: (nat, nat) -> H3Index)
    ensures SumLengths(CellOrder(pixels, cellOf), pixels, cellOf) == |RelevantCodes(pixels)|
  {
    if pixels != [] {
      var init := pixels[..|pixels| - 1];
      var p := pixels[|pixels| - 1];
      var c := cellOf(p.row, p.col);
      assert pixels == init + [p];
      UrbanMapSize(init, cellOf);
      var keys0 := CellOrder(init, cellOf);
      CellOrderNoDuplicates(init, cellOf);
      SumLengthsStep(keys0, init, p, cellOf);
      if IsRelevant(p.code) && c !in keys0 {
        CellOrderIffCodes(init, cellOf, c);
        assert (keys0 + [c])[..|keys0|] == keys0;
      }
    }
  }

  /** The scan loop of `tif_to_h3`: for each relevant pixel, append its code to its cell's list,
      creating the list the first time the cell is seen. `keys` records the insertion order
      of the dict. */
  method BuildUrbanMap(pixels: seq<Pixel>, cellOf: (nat, nat) -> H3Index)
    returns (urbanMap: map<H3Index, seq<Code>>, keys: seq<H3Index>)
    ensures keys == CellOrder(pixels, cellOf)
    ensures forall k :: k in urbanMap <==> k in keys
    ensures forall k :: k in urbanMap ==> urbanMap[k] == CodesOf(pixels, cellOf, k)
  {
    urbanMap, keys := map[], [];
    var i := 0;
    while i < |pixels|
      invariant 0 <= i <= |pixels|
      invariant keys == CellOrder(pixels[..i], cellOf)
      invariant forall k :: k in urbanMap <==> k in keys
      invariant forall k :: k in urbanMap ==> urbanMap[k] == CodesOf(pixels[..i], cellOf, k)
    {
      var p := pixels[i];
      assert pixels[..i + 1][..i] == pixels[..i];
      assert pixels[..i + 1][i] == p;
      if IsRelevant(p.code) {
        var cell := cellOf(p.row, p.col);
        if cell in urbanMap {
          urbanMap := urbanMap[cell := urbanMap[cell] + [p.code]];
        } else {
          CellOrderIffCodes(pixels[..i], cellOf, cell);
          urbanMap := urbanMap[cell := [p.code]];
          keys := keys + [cell];
        }
      }
      i := i + 1;
    }
    assert pixels[..i] == pixels;
  }

  /** `val_map`: 1 for residential codes, 0 for non-residential ones; `Series.map` gives NaN
      (None) for any other code. */
  function ResidentialBool(code: Code): (r: Option<int>)
    ensures r == Some(1) <==> 11 <= code <= 15
    ensures r == Some(0) <==> 21 <= code <= 25
    ensures r.None? <==> !IsRelevant(code)
  {
    var valMap := map[11 := 1, 12 := 1, 13 := 1, 14 := 1, 15 := 1, 21 := 0, 22 := 0, 23 := 0, 24 := 0, 25 := 0];
    if code in valMap then Some(valMap[code]) else None
  }

  /** One row of the origins table: `h3_index, ghsl_code, residential_bool`. */
  datatype OriginRow = OriginRow(h3Index: H3Index, ghslCode: Code, residentialBool: Option<int>)

  /** The row of one cell: the vote over its codes and the code's residential flag. */
  function OriginRowOf(cell: H3Index, codes: seq<Code>, coin: bool): (row: OriginRow)
    requires codes != []
    ensures row.h3Index == cell && row.ghslCode in codes
    ensures forall v :: Count(codes, v) <= Count(codes, row.ghslCode)
  {
    VoteIsMostFrequent(codes, coin);
    var code := CountOccurrencesBreakTie(codes, coin).value;
    OriginRow(cell, code, ResidentialBool(code))
  }

  /** Every key of the scan has a non-empty list. */
  lemma KeysHaveCodes(pixels: seq<Pixel>, cellOf: (nat, nat) -> H3Index)
    ensures forall k :: k in CellOrder(pixels, cellOf) ==> CodesOf(pixels, cellOf, k) != []
  {
    forall k | k in CellOrder(pixels, cellOf) ensures CodesOf(pixels, cellOf, k) != [] {
      CellOrderIffCodes(pixels, cellOf, k);
    }
  }

  /** The table `tif_to_h3` writes, as a function of the pixels, one row per cell in insertion
      order; `coin(i)` is the tie-break outcome for the i-th cell. */
  function Origins(pixels: seq<Pixel>, cellOf: (nat, nat) -> H3Index, coin: nat -> bool): (rows: seq<OriginRow>)
    ensures |rows| == |CellOrder(pixels, cellOf)|
  {
    var keys := CellOrder(pixels, cellOf);
    KeysHaveCodes(pixels, cellOf);
    seq(|keys|, i requires 0 <= i < |keys| => OriginRowOf(keys[i], CodesOf(pixels, cellOf, keys[i]), coin(i)))
  }

  /** Row i of the table is the row of the i-th cell inserted into the dict. */
  lemma OriginsAt(pixels: seq<Pixel>, cellOf: (nat, nat) -> H3Index, coin: nat -> bool, i: nat)
    requires i < |CellOrder(pixels, cellOf)|
    ensures var keys := CellOrder(pixels, cellOf);
      CodesOf(pixels, cellOf, keys[i]) != [] &&
      Origins(pixels, cellOf, coin)[i] == OriginRowOf(keys[i], CodesOf(pixels, cellOf, keys[i]), coin(i))
  {
    KeysHaveCodes(pixels, cellOf);
  }

  /** No cell gets two rows in the table. */
  lemma OriginsDistinct(pixels: seq<Pixel>, cellOf: (nat, nat) -> H3Index, coin: nat -> bool)
    ensures forall i, j :: 0 <= i < j < |Origins(pixels, cellOf, coin)| ==>
      Origins(pixels, cellOf, coin)[i].h3Index != Origins(pixels, cellOf, coin)[j].h3Index
  {
    OriginsIndices(pixels, cellOf, coin);
    CellOrderNoDuplicates(pixels, cellOf);
    var keys := CellOrder(pixels, cellOf);
    assert |Origins(pixels, cellOf, coin)| == |keys|;
    forall i, j | 0 <= i < j < |Origins(pixels, cellOf, coin)|
      ensures Origins(pixels, cellOf, coin)[i].h3Index != Origins(pixels, cellOf, coin)[j].h3Index
    {
      assert keys[i] != keys[j];
    }
  }

  lemma OriginsIndices(pixels: seq<Pixel>, cellOf: (nat, nat) -> H3Index, coin: nat -> bool)
    ensures forall i :: 0 <= i < |Origins(pixels, cellOf, coin)| ==>
      Origins(pixels, cellOf, coin)[i].h3Index == CellOrder(pixels, cellOf)[i]
  {
    forall i | 0 <= i < |Origins(pixels, cellOf, coin)|
      ensures Origins(pixels, cellOf, coin)[i].h3Index == CellOrder(pixels, cellOf)[i]
    {
      OriginsAt(pixels, cellOf, coin, i);
    }
  }

  /** Every row's cell received at least one relevant pixel. */
  lemma OriginsFromPixels(pixels: seq<Pixel>, cellOf: (nat, nat) -> H3Index, coin: nat -> bool)
    ensures forall i :: 0 <= i < |Origins(pixels, cellOf, coin)| ==>
      exists p :: 0 <= p < |pixels| && IsRelevant(pixels[p].code) &&
        cellOf(pixels[p].row, pixels[p].col) == Origins(pixels, cellOf, coin)[i].h3Index
  {
    OriginsIndices(pixels, cellOf, coin);
    forall i | 0 <= i < |Origins(pixels, cellOf, coin)|
      ensures exists p :: (0 <= p < |pixels| && IsRelevant(pixels[p].code) &&
        cellOf(pixels[p].row, pixels[p].col) == Origins(pixels, cellOf, coin)[i].h3Index)
    {
      var k := CellOrder(pixels, cellOf)[i];
      CellOrderIffPixel(pixels, cellOf, k);
      var p :| 0 <= p < |pixels| && IsRelevant(pixels[p].code) && cellOf(pixels[p].row, pixels[p].col) == k;
      assert Origins(pixels, cellOf, coin)[i].h3Index == k;
    }
    assert forall i :: 0 <= i < |Origins(pixels, cellOf, coin)| ==>
      exists p :: 0 <= p < |pixels| && IsRelevant(pixels[p].code) &&
        cellOf(pixels[p].row, pixels[p].col) == Origins(pixels, cellOf, coin)[i].h3Index;
  }

  /** Every cell that received a relevant pixel has a row. */
  lemma OriginsCoverPixels(pixels: seq<Pixel>, cellOf: (nat, nat) -> H3Index, coin: nat -> bool)
    ensures forall p :: 0 <= p < |pixels| && IsRelevant(pixels[p].code) ==>
      exists i :: 0 <= i < |Origins(pixels, cellOf, coin)| &&
        Origins(pixels, cellOf, coin)[i].h3Index == cellOf(pixels[p].row, pixels[p].col)
  {
    var keys := CellOrder(pixels, cellOf);
    OriginsIndices(pixels, cellOf, coin);
    forall p | 0 <= p < |pixels| && IsRelevant(pixels[p].code)
      ensures exists i :: (0 <= i < |Origins(pixels, cellOf, coin)| &&
        Origins(pixels, cellOf, coin)[i].h3Index == cellOf(pixels[p].row, pixels[p].col))
    {
      var k := cellOf(pixels[p].row, pixels[p].col);
      CellOrderIffPixel(pixels, cellOf, k);
      var i :| 0 <= i < |keys| && keys[i] == k;
      assert Origins(pixels, cellOf, coin)[i].h3Index == k;
    }
  }

  /** Each row's code is a most frequent code among its cell's pixels, and the flag is defined
      and says whether that code is residential. */
  lemma OriginsVotes(pixels: seq<Pixel>, cellOf: (nat, nat) -> H3Index, coin: nat -> bool)
    ensures var rows := Origins(pixels, cellOf, coin);
      forall i :: 0 <= i < |rows| ==>
        var codes := CodesOf(pixels, cellOf, rows[i].h3Index);
        rows[i].ghslCode in codes && forall v :: Count(codes, v) <= Count(codes, rows[i].ghslCode)
    ensures var rows := Origins(pixels, cellOf, coin);
      forall i :: 0 <= i < |rows| ==>
        IsRelevant(rows[i].ghslCode) &&
        (rows[i].residentialBool == Some(1) <==> 11 <= rows[i].ghslCode <= 15) &&
        (rows[i].residentialBool == Some(0) <==> 21 <= rows[i].ghslCode <= 25)
  {
    var keys := CellOrder(pixels, cellOf);
    var rows := Origins(pixels, cellOf, coin);
    forall i | 0 <= i < |rows|
      ensures var codes := CodesOf(pixels, cellOf, rows[i].h3Index);
        rows[i].ghslCode in codes && forall v :: Count(codes, v) <= Count(codes, rows[i].ghslCode)
      ensures IsRelevant(rows[i].ghslCode)
      ensures rows[i].residentialBool == ResidentialBool(rows[i].ghslCode)
    {
      OriginsAt(pixels, cellOf, coin, i);
      VoteIsMostFrequent(CodesOf(pixels, cellOf, keys[i]), coin(i));
      CodesOfRelevant(pixels, cellOf, keys[i]);
    }
  }

  /** `tif_to_h3` without the raster read and the CSV write: pixels in, table rows out. */
  method TifToH3(pixels: seq<Pixel>, cellOf: (nat, nat) -> H3Index, coin: nat -> bool)
    returns (rows: seq<OriginRow>)
    ensures rows == Origins(pixels, cellOf, coin)
  {
    var urbanMap, keys := BuildUrbanMap(pixels, cellOf);
    KeysHaveCodes(pixels, cellOf);
    rows := seq(|keys|, i requires 0 <= i < |keys| => OriginRowOf(keys[i], urbanMap[keys[i]], coin(i)));
    forall i | 0 <= i < |rows| ensures rows[i] == Origins(pixels, cellOf, coin)[i] {
      OriginsAt(pixels, cellOf, coin, i);
    }
  }

  /** The scan of the four pixels of the scenario below: one key, three codes. */
  lemma OneCellScan(cell: H3Index)
    ensures var pixels := [Pixel(0, 0, 11), Pixel(0, 1, 21), Pixel(1, 0, 11), Pixel(1, 1, 99)];
      var cellOf := (r: nat, c: nat) => cell;
      CellOrder(pixels, cellOf) == [cell] && CodesOf(pixels, cellOf, cell) == [11, 21, 11]
  {
    var pixels := [Pixel(0, 0, 11), Pixel(0, 1, 21), Pixel(1, 0, 11), Pixel(1, 1, 99)];
    var cellOf := (r: nat, c: nat) => cell;
    var p1 := [Pixel(0, 0, 11)];
    var p2 := p1 + [Pixel(0, 1, 21)];
    var p3 := p2 + [Pixel(1, 0, 11)];
    assert p1[..0] == [] && p2[..1] == p1 && p3[..2] == p2 && pixels[..3] == p3;
    assert IsRelevant(11) && IsRelevant(21) && !IsRelevant(99);
    assert CellOrder(p1, cellOf) == [cell] && CodesOf(p1, cellOf, cell) == [11];
    assert CellOrder(p2, cellOf) == [cell] && CodesOf(p2, cellOf, cell) == [11, 21];
    assert CellOrder(p3, cellOf) == [cell] && CodesOf(p3, cellOf, cell) == [11, 21, 11];
  }

  /** Four pixels with codes 11, 21, 11, 99 in one cell give one residential row with code 11:
      11 outvotes 21 and 99 is dropped before the vote. */
  lemma OneCellScenario(cell: H3Index, coin: nat -> bool)
    ensures var pixels := [Pixel(0, 0, 11), Pixel(0, 1, 21), Pixel(1, 0, 11), Pixel(1, 1, 99)];
      Origins(pixels, (r: nat, c: nat) => cell, coin) == [OriginRow(cell, 11, Some(1))]
  {
    var pixels := [Pixel(0, 0, 11), Pixel(0, 1, 21), Pixel(1, 0, 11), Pixel(1, 1, 99)];
    var cellOf := (r: nat, c: nat) => cell;
    OneCellScan(cell);
    var codes: seq<Code> := [11, 21, 11];
    assert Count(codes, 11) == 2 && Count(codes, 21) == 1;
    forall v | v != 11 ensures Count(codes, v) < Count(codes, 11) {
      assert v == 21 || v !in codes;
    }
    VoteStrictWinner(codes, 11, coin(0));
    OriginsAt(pixels, cellOf, coin, 0);
  }
}
