/** The postal-code (CEP) range validator: every row of the "Logradouros" sheet gets a
    boolean column telling whether its range `[CEP inicial, CEP final]` overlaps some
    range of the base sheet. */
module CepOverlap {
  import opened Wrappers
  import opened Frames

  const CepInicial := "CEP inicial"
  const CepFinal := "CEP final"
  const PertenceColumn := "Pertence_F_TGT_DF"

  /** A row's two bounds, already converted to integers. */
  datatype CepRange = CepRange(ini: int, fin: int)

  // ---------------------------------------------------------------------------
  // Conversion of the bound columns (`astype(int)`)
  // ---------------------------------------------------------------------------

  /** The float-to-integer conversion of `astype(int)`: truncation toward zero. */
  function Trunc(x: real): (t: int)
    ensures 0.0 <= x ==> 0 <= t && t as real <= x < t as real + 1.0
    ensures x < 0.0 ==> t <= 0 && t as real - 1.0 < x <= t as real
  {
    if x >= 0.0 then x.Floor else -((-x).Floor)
  }

  /** One cell through `astype(int)`; `None` is the conversion error pandas raises. */
  function AsInt(c: Cell): (r: Option<int>)
    ensures r.None? <==> c.TextCell? || c.Empty?
    ensures c.IntCell? ==> r == Some(c.i)
    ensures c.RealCell? && 0.0 <= c.r ==> r.Some? && 0 <= r.value && r.value as real <= c.r < r.value as real + 1.0
    ensures c.RealCell? && c.r < 0.0 ==> r.Some? && r.value <= 0 && r.value as real - 1.0 < c.r <= r.value as real
  {
    match c
    case IntCell(i) => Some(i)
    case RealCell(r) => Some(Trunc(r))
    case BoolCell(b) => Some(if b then 1 else 0)
    case TextCell(_) => None
    case Empty => None
  }

  /** A whole column through `astype(int)`: it converts cell by cell, or fails as a whole. */
  function CastColumn(cells: seq<Cell>): (r: Option<seq<int>>)
    ensures r.Some? <==> forall k :: 0 <= k < |cells| ==> AsInt(cells[k]).Some?
    ensures r.Some? ==> |r.value| == |cells|
    ensures r.Some? ==> forall k :: 0 <= k < |cells| ==> AsInt(cells[k]) == Some(r.value[k])
  {
    if cells == [] then Some([])
    else match (AsInt(cells[0]), CastColumn(cells[1..]))
      case (Some(x), Some(xs)) => Some([x] + xs)
      case _ => None
  }

  /** The integer cells a successful cast stores. */
  function IntCells(xs: seq<int>): (cells: seq<Cell>)
    ensures |cells| == |xs|
  {
    seq(|xs|, k requires 0 <= k < |xs| => IntCell(xs[k]))
  }

  /** The integers of a column that holds only integer cells. */
  function IntsOf(cells: seq<Cell>): (r: Option<seq<int>>)
    ensures r.Some? <==> forall k :: 0 <= k < |cells| ==> cells[k].IntCell?
    ensures r.Some? ==> |r.value| == |cells| && forall k :: 0 <= k < |cells| ==> cells[k] == IntCell(r.value[k])
  {
    if cells == [] then Some([])
    else match (cells[0], IntsOf(cells[1..]))
      case (IntCell(x), Some(xs)) => Some([x] + xs)
      case _ => None
  }

  /** Casting a column that already holds integers changes nothing, and the integers
      stored by a cast are read back unchanged. */
  lemma {:induction false} CastIdempotent(xs: seq<int>)
    ensures CastColumn(IntCells(xs)) == Some(xs)
    ensures IntsOf(IntCells(xs)) == Some(xs)
  {
    var r := CastColumn(IntCells(xs));
    var q := IntsOf(IntCells(xs));
    assert r.value == xs;
    assert q.value == xs;
  }

  /** Both bound columns exist and both convert. */
  ghost predicate CastsCleanly(df: Frame)
    reads df
    requires df.Valid()
  {
    && df.Column(CepInicial).Some? && CastColumn(df.Column(CepInicial).value).Some?
    && df.Column(CepFinal).Some? && CastColumn(df.Column(CepFinal).value).Some?
  }

  /** Row `k` pairs the `k`-th lower bound with the `k`-th upper bound. */
  function Zip(ini: seq<int>, fin: seq<int>): (rs: seq<CepRange>)
    requires |ini| == |fin|
    ensures |rs| == |ini|
  {
    seq(|ini|, k requires 0 <= k < |ini| => CepRange(ini[k], fin[k]))
  }

  /** The rows' ranges, once both bound columns hold integers. */
  function Ranges(df: Frame): (r: Option<seq<CepRange>>)
    reads df
    requires df.Valid()
    ensures r.Some? ==> |r.value| == df.height
  {
    match (df.Column(CepInicial), df.Column(CepFinal))
    case (Some(a), Some(b)) =>
      (match (IntsOf(a), IntsOf(b))
       case (Some(ini), Some(fin)) => Some(Zip(ini, fin))
       case _ => None)
    case _ => None
  }

  /** Lines 26-28 for one frame: `CEP inicial` and then `CEP final` are replaced by their
      integer conversion. A failing conversion raises, so `ok` is false; if it is the second
      one that fails, the first column has already been rewritten. */
  method CastBounds(df: Frame) returns (ok: bool)
    requires df.Valid()
    modifies df
    ensures df.Valid() && df.height == old(df.height) && df.names == old(df.names)
    ensures ok <==> old(CastsCleanly(df))
    ensures ok ==> df.Column(CepInicial) == Some(IntCells(old(CastColumn(df.Column(CepInicial).value).value)))
    ensures ok ==> df.Column(CepFinal) == Some(IntCells(old(CastColumn(df.Column(CepFinal).value).value)))
    ensures ok ==> Ranges(df) == Some(Zip(old(CastColumn(df.Column(CepInicial).value).value),
                                          old(CastColumn(df.Column(CepFinal).value).value)))
    ensures forall n :: n != CepInicial && n != CepFinal ==> df.Column(n) == old(df.Column(n))
  {
    var ini := df.Column(CepInicial);
    var fin := df.Column(CepFinal);
    if ini.None? {
      return false;
    }
    var xs := CastColumn(ini.value);
    if xs.None? {
      return false;
    }
    df.SetColumn(CepInicial, IntCells(xs.value));
    if fin.None? {
      return false;
    }
    var ys := CastColumn(fin.value);
    if ys.None? {
      return false;
    }
    df.SetColumn(CepFinal, IntCells(ys.value));
    CastIdempotent(xs.value);
    CastIdempotent(ys.value);
    ok := true;
  }

  // ---------------------------------------------------------------------------
  // The overlap rule (`pertence_f_tgt`)
  // ---------------------------------------------------------------------------

  /** One base row against the candidate bounds: closed on both sides. */
  predicate Overlaps(b: CepRange, cepIni: int, cepFim: int)
  {
    b.ini <= cepFim && b.fin >= cepIni
  }

  /** The postal code lies within the range, both bounds included. */
  predicate Covers(r: CepRange, cep: int)
  {
    r.ini <= cep <= r.fin
  }

  /** The meaning of overlap: some postal code lies in both ranges. */
  ghost predicate ShareCep(a: CepRange, b: CepRange)
  {
    exists x: int :: Covers(a, x) && Covers(b, x)
  }

  /** `pertence_f_tgt(cep_ini, cep_fim, base)`: the element-wise test over the base
      rows followed by `.any()`. */
  function PertenceFTgt(cepIni: int, cepFim: int, base: seq<CepRange>): (r: bool)
    ensures r <==> exists k :: 0 <= k < |base| && Overlaps(base[k], cepIni, cepFim)
  {
    if base == [] then false
    else Overlaps(base[0], cepIni, cepFim) || PertenceFTgt(cepIni, cepFim, base[1..])
  }

  /** For well-formed ranges the test is exactly "the two ranges share a postal code". */
  lemma OverlapMeansSharedCep(a: CepRange, b: CepRange)
    requires a.ini <= a.fin && b.ini <= b.fin
    ensures Overlaps(a, b.ini, b.fin) <==> ShareCep(a, b)
  {
    if Overlaps(a, b.ini, b.fin) {
      var x := if a.ini <= b.ini then b.ini else a.ini;
      assert Covers(a, x) && Covers(b, x);
    }
  }

  /** Swapping the roles of the base row and the candidate gives the same answer. */
  lemma OverlapSymmetric(a: CepRange, b: CepRange)
    ensures Overlaps(a, b.ini, b.fin) == Overlaps(b, a.ini, a.fin)
  {
  }

  /** A well-formed range overlaps itself. */
  lemma OverlapReflexive(a: CepRange)
    requires a.ini <= a.fin
    ensures Overlaps(a, a.ini, a.fin)
  {
  }

  /** Touching end points count: `[1,10]` meets `[10,20]` but not `[11,20]`. */
  lemma TouchingEndpoints()
    ensures PertenceFTgt(10, 20, [CepRange(1, 10)])
    ensures !PertenceFTgt(11, 20, [CepRange(1, 10)])
  {
  }

  /** `.any()` of no rows is false. */
  lemma EmptyBase(cepIni: int, cepFim: int)
    ensures !PertenceFTgt(cepIni, cepFim, [])
  {
  }

  /** Adding base rows never turns a match into a miss. */
  lemma {:induction false} MonotoneInBase(cepIni: int, cepFim: int, base: seq<CepRange>, more: seq<CepRange>)
    requires PertenceFTgt(cepIni, cepFim, base)
    ensures PertenceFTgt(cepIni, cepFim, base + more)
  {
    var k :| 0 <= k < |base| && Overlaps(base[k], cepIni, cepFim);
    assert (base + more)[k] == base[k];
  }

  /** An inverted candidate `[hi, lo]` (with `lo < hi`) is taken literally: it matches
      exactly when some base range covers the whole of `[lo, hi]`. */
  lemma InvertedCandidate(hi: int, lo: int, base: seq<CepRange>)
    requires lo < hi
    ensures PertenceFTgt(hi, lo, base) <==> exists k :: 0 <= k < |base| && base[k].ini <= lo && hi <= base[k].fin
  {
  }

  // ---------------------------------------------------------------------------
  // Applying the rule row by row (lines 37-44)
  // ---------------------------------------------------------------------------

  /** `logradouros_df.apply(lambda row: pertence_f_tgt(...), axis=1)`: one answer per
      candidate row, in row order. */
  method BelongsColumn(cands: seq<CepRange>, base: seq<CepRange>) returns (col: seq<bool>)
    ensures |col| == |cands|
    ensures forall i :: 0 <= i < |cands| ==> col[i] == PertenceFTgt(cands[i].ini, cands[i].fin, base)
  {
    col := [];
    var i := 0;
    while i < |cands|
      invariant 0 <= i <= |cands|
      invariant |col| == i
      invariant forall j :: 0 <= j < i ==> col[j] == PertenceFTgt(cands[j].ini, cands[j].fin, base)
    {
      col := col + [PertenceFTgt(cands[i].ini, cands[i].fin, base)];
      i := i + 1;
    }
  }

  /** The boolean cells pandas stores for the answers. */
  function BoolCells(bs: seq<bool>): (cells: seq<Cell>)
    ensures |cells| == |bs|
  {
    seq(|bs|, k requires 0 <= k < |bs| => BoolCell(bs[k]))
  }

  /** The worked scenario: base `[1000,1999], [5000,5999]` against candidates
      `[1500,1600], [2000,2100], [5999,6000]` gives `[true, false, true]`. */
  method Scenario() returns (col: seq<bool>)
    ensures col == [true, false, true]
  {
    var base := [CepRange(1000, 1999), CepRange(5000, 5999)];
    var cands := [CepRange(1500, 1600), CepRange(2000, 2100), CepRange(5999, 6000)];
    assert Overlaps(base[0], 1500, 1600);
    assert Overlaps(base[1], 5999, 6000);
    col := BelongsColumn(cands, base);
  }

  /** The body of the `try` block once both sheets are loaded: cast the bounds of the
      base sheet and then of the Logradouros sheet, and add the result column to the
      latter. `ok` is false when a step raises, which the script reports as an error. */
  method ProcessSheets(base: Frame, logradouros: Frame) returns (ok: bool)
    requires base != logradouros
    requires base.Valid() && logradouros.Valid()
    modifies base, logradouros
    ensures base.Valid() && logradouros.Valid()
    ensures ok <==> old(CastsCleanly(base)) && old(CastsCleanly(logradouros))
    ensures ok ==> Ranges(base) == Some(Zip(old(CastColumn(base.Column(CepInicial).value).value),
                                            old(CastColumn(base.Column(CepFinal).value).value)))
    ensures ok ==> Ranges(logradouros) == Some(Zip(old(CastColumn(logradouros.Column(CepInicial).value).value),
                                                   old(CastColumn(logradouros.Column(CepFinal).value).value)))
    ensures ok ==> base.names == old(base.names) && base.height == old(base.height)
    ensures ok ==> forall n :: n != CepInicial && n != CepFinal ==> base.Column(n) == old(base.Column(n))
    ensures ok ==> logradouros.height == old(logradouros.height)
    ensures ok ==> var cands := Ranges(logradouros).value;
                   var answers := logradouros.Column(PertenceColumn);
                   && answers.Some? && |answers.value| == |cands|
                   && forall i :: 0 <= i < |cands| ==>
                        answers.value[i] == BoolCell(PertenceFTgt(cands[i].ini, cands[i].fin, Ranges(base).value))
    ensures ok ==> forall n :: n != CepInicial && n != CepFinal && n != PertenceColumn ==>
                     logradouros.Column(n) == old(logradouros.Column(n))
    ensures ok ==> logradouros.names == old(logradouros.names) || logradouros.names == old(logradouros.names) + [PertenceColumn]
  {
    ok := CastBounds(base);
    if !ok {
      return;
    }
    ok := CastBounds(logradouros);
    if !ok {
      return;
    }
    var baseRanges := Ranges(base).value;
    var cands := Ranges(logradouros).value;
    var col := BelongsColumn(cands, baseRanges);
    ghost var namesBefore := logradouros.names;
    logradouros.SetColumn(PertenceColumn, BoolCells(col));
    assert Ranges(logradouros) == Some(cands);
  }
}
