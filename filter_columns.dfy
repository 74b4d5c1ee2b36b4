/** Preparation of the map's filter columns in the map generator: the state and city
    columns are found by alias, created when absent, renamed to `estado_filtro` and
    `cidade_filtro`, and their distinct values listed in sorted order for the panel. */
module FilterColumns {
  import opened Frames

  const EstadoAliases: seq<string> := ["estado", "uf"]
  const CidadeAliases: seq<string> := ["cidade", "municipio", "localidade", "city"]
  const EstadoDefault := "estado"
  const CidadeDefault := "cidade"
  const NaoInformado := "Não Informado"
  const EstadoFiltro := "estado_filtro"
  const CidadeFiltro := "cidade_filtro"

  // ---------------------------------------------------------------------------
  // Alias resolution
  // ---------------------------------------------------------------------------

  /** `next((c for c in columns if c.lower() in aliases), default)`: the first label whose
      lower-cased form is an alias, or the default label when none is. `lower` stands for
      Python's `str.lower`. */
  function ResolveAlias(names: seq<string>, aliases: seq<string>, default: string, lower: string -> string): (c: string)
    ensures (forall k :: 0 <= k < |names| ==> lower(names[k]) !in aliases) ==> c == default
    ensures (exists k :: 0 <= k < |names| && lower(names[k]) in aliases) ==>
              exists k :: 0 <= k < |names| && names[k] == c && lower(c) in aliases
                          && forall j :: 0 <= j < k ==> lower(names[j]) !in aliases
  {
    if names == [] then default
    else if lower(names[0]) in aliases then names[0]
    else
      var c := ResolveAlias(names[1..], aliases, default, lower);
      assert forall k :: 1 <= k < |names| ==> names[k] == names[1..][k - 1];
      c
  }

  /** The state and city labels can never be resolved to the same column, since no
      lower-cased label is an alias of both and the defaults differ. */
  lemma ResolvedLabelsDiffer(names: seq<string>, lower: string -> string)
    requires lower(EstadoDefault) == EstadoDefault && lower(CidadeDefault) == CidadeDefault
    ensures ResolveAlias(names, EstadoAliases, EstadoDefault, lower) != ResolveAlias(names, CidadeAliases, CidadeDefault, lower)
  {
    var e := ResolveAlias(names, EstadoAliases, EstadoDefault, lower);
    var c := ResolveAlias(names, CidadeAliases, CidadeDefault, lower);
    if exists k :: 0 <= k < |names| && lower(names[k]) in EstadoAliases {
      assert lower(e) in EstadoAliases;
      if exists k :: 0 <= k < |names| && lower(names[k]) in CidadeAliases {
        assert lower(c) in CidadeAliases;
      }
    } else if exists k :: 0 <= k < |names| && lower(names[k]) in CidadeAliases {
      assert lower(c) in CidadeAliases;
    }
  }

  /** A column of `height` cells that all read `Não Informado`. */
  function Filled(height: nat): (cells: seq<Cell>)
    ensures |cells| == height
  {
    seq(height, _ => TextCell(NaoInformado))
  }

  /** The labels after `if name not in df.columns: df[name] = ...`. */
  function WithLabel(names: seq<string>, name: string): (r: seq<string>)
    ensures name in r
  {
    if name in names then names else names + [name]
  }

  /** Lines 42-43, one label: a label the frame lacks becomes a new rightmost column filled
      with `Não Informado`; otherwise nothing changes. */
  method AddIfMissing(df: Frame, name: string)
    requires df.Valid()
    modifies df
    ensures df.Valid() && df.height == old(df.height)
    ensures df.names == WithLabel(old(df.names), name)
    ensures df.cols == old(df.cols) + (if name in old(df.names) then [] else [Filled(df.height)])
  {
    if name !in df.names {
      df.SetColumn(name, Filled(df.height));
    }
  }

  /** Both labels, one after the other; columns the frame had keep their cells and place. */
  method AddBoth(df: Frame, e: string, c: string)
    requires df.Valid()
    modifies df
    ensures df.Valid() && df.height == old(df.height)
    ensures df.names == WithLabel(WithLabel(old(df.names), e), c)
    ensures |df.cols| >= |old(df.cols)| && df.cols[..|old(df.cols)|] == old(df.cols)
    ensures forall k :: |old(df.cols)| <= k < |df.cols| ==> df.cols[k] == Filled(df.height)
  {
    ghost var before := df.cols;
    AddIfMissing(df, e);
    ghost var middle := df.cols;
    AddIfMissing(df, c);
    assert df.cols[..|before|] == before by {
      assert middle[..|before|] == before;
      assert df.cols[..|middle|] == middle;
    }
  }

  /** Lines 39-45: resolve both labels, add a filled column for a label the frame lacks,
      then rename the two to `estado_filtro` and `cidade_filtro`. Every column the frame
      had keeps its cells and its place. */
  method StandardizeFilterColumns(df: Frame, lower: string -> string)
    requires df.Valid()
    requires lower(EstadoDefault) == EstadoDefault && lower(CidadeDefault) == CidadeDefault
    modifies df
    ensures df.Valid() && df.height == old(df.height)
    ensures EstadoFiltro in df.names && CidadeFiltro in df.names
    ensures var e := ResolveAlias(old(df.names), EstadoAliases, EstadoDefault, lower);
            var c := ResolveAlias(old(df.names), CidadeAliases, CidadeDefault, lower);
            df.names == Renamed(WithLabel(WithLabel(old(df.names), e), c), map[e := EstadoFiltro, c := CidadeFiltro])
    ensures |df.cols| >= |old(df.cols)| && df.cols[..|old(df.cols)|] == old(df.cols)
    ensures forall k :: |old(df.cols)| <= k < |df.cols| ==> df.cols[k] == Filled(df.height)
  {
    var colEstado := ResolveAlias(df.names, EstadoAliases, EstadoDefault, lower);
    var colCidade := ResolveAlias(df.names, CidadeAliases, CidadeDefault, lower);
    ResolvedLabelsDiffer(df.names, lower);
    AddBoth(df, colEstado, colCidade);
    ghost var labels := df.names;
    assert colEstado in labels;
    var m := map[colEstado := EstadoFiltro, colCidade := CidadeFiltro];
    df.Rename(m);
    RenamedHit(labels, m, colEstado);
    RenamedHit(labels, m, colCidade);
  }

  // ---------------------------------------------------------------------------
  // Sorted option lists
  // ---------------------------------------------------------------------------

  /** Python's `<` on strings: lexicographic by code point, a proper prefix first. */
  predicate Below(a: string, b: string)
  {
    if a == [] then b != []
    else if b == [] then false
    else if a[0] != b[0] then a[0] < b[0]
    else Below(a[1..], b[1..])
  }

  lemma {:induction false} BelowIrreflexive(a: string)
    ensures !Below(a, a)
  {
    if a != [] {
      BelowIrreflexive(a[1..]);
    }
  }

  lemma {:induction false} BelowTransitive(a: string, b: string, c: string)
    requires Below(a, b) && Below(b, c)
    ensures Below(a, c)
  {
    if a != [] && b != [] && c != [] && a[0] == b[0] && b[0] == c[0] {
      BelowTransitive(a[1..], b[1..], c[1..]);
    }
  }

  /** Any two different strings are ordered one way or the other. */
  lemma {:induction false} BelowTotal(a: string, b: string)
    requires a != b
    ensures Below(a, b) || Below(b, a)
  {
    if a != [] && b != [] && a[0] == b[0] {
      assert a == [a[0]] + a[1..] && b == [b[0]] + b[1..];
      BelowTotal(a[1..], b[1..]);
    }
  }

  lemma {:induction false} BelowAsymmetric(a: string, b: string)
    requires Below(a, b)
    ensures !Below(b, a)
  {
    if a != [] && b != [] && a[0] == b[0] {
      BelowAsymmetric(a[1..], b[1..]);
    }
  }

  /** Ascending and without repetitions. */
  ghost predicate StrictlySorted(s: seq<string>)
  {
    forall i, j :: 0 <= i < j < |s| ==> Below(s[i], s[j])
  }

  /** Put `x` into a sorted list of distinct strings, unless it is already there. */
  function Insert(x: string, s: seq<string>): (r: seq<string>)
    requires StrictlySorted(s)
    ensures StrictlySorted(r)
    ensures forall y :: y in r <==> y == x || y in s
  {
    if s == [] then [x]
    else if x == s[0] then s
    else if Below(x, s[0]) then
      forall j | 0 < j < |s| ensures Below(x, s[j]) {
        BelowTransitive(x, s[0], s[j]);
      }
      [x] + s
    else
      BelowTotal(x, s[0]);
      var t := Insert(x, s[1..]);
      assert forall y :: y in s[1..] ==> Below(s[0], y);
      [s[0]] + t
  }

  /** `sorted(column.unique().tolist())`. */
  function SortedUnique(values: seq<string>): (r: seq<string>)
    ensures StrictlySorted(r)
    ensures forall y :: y in r <==> y in values
  {
    if values == [] then []
    else
      var r := Insert(values[|values| - 1], SortedUnique(values[..|values| - 1]));
      assert values == values[..|values| - 1] + [values[|values| - 1]];
      r
  }

  /** The head of a strictly sorted list is below every other element. */
  lemma HeadBelow(s: seq<string>, y: string)
    requires StrictlySorted(s) && y in s && y != s[0]
    ensures Below(s[0], y)
  {
  }

  /** A strictly sorted list is determined by its elements, so the list above is the one
      Python's `sorted` builds from the distinct values, whatever algorithm produced it. */
  lemma {:induction false} SortedListIsUnique(a: seq<string>, b: seq<string>)
    requires StrictlySorted(a) && StrictlySorted(b)
    requires forall y :: y in a <==> y in b
    ensures a == b
  {
    assert |a| > 0 ==> a[0] in b;
    assert |b| > 0 ==> b[0] in a;
    if a != [] && b != [] {
      assert a[0] in a && b[0] in b;
      assert a[0] == b[0] by {
        if a[0] != b[0] {
          HeadBelow(b, a[0]);
          HeadBelow(a, b[0]);
          BelowAsymmetric(a[0], b[0]);
        }
      }
      BelowIrreflexive(a[0]);
      forall y ensures y in a[1..] <==> y in b[1..] {
        if y in a[1..] {
          var k :| 1 <= k < |a| && a[k] == y;
          assert y != a[0] && y in a;
          var m :| 0 <= m < |b| && b[m] == y;
        }
        if y in b[1..] {
          var k :| 1 <= k < |b| && b[k] == y;
          assert y != b[0] && y in b;
          var m :| 0 <= m < |a| && a[m] == y;
        }
      }
      SortedListIsUnique(a[1..], b[1..]);
      assert a == [a[0]] + a[1..] && b == [b[0]] + b[1..];
    }
  }
}
