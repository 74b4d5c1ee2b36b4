/** The part of a pandas DataFrame the scripts use: an ordered list of column labels, one
    column of cells per label, and a common number of rows. Column assignment and renaming
    update the frame in place. */
module Frames {
  import opened Wrappers

  /** A cell as pandas holds it after reading a spreadsheet; `Empty` is a missing value (NaN). */
  datatype Cell = IntCell(i: int) | RealCell(r: real) | BoolCell(b: bool) | TextCell(s: string) | Empty

  /** Position of the first column labelled `name`. */
  function FirstIndex(names: seq<string>, name: string): (k: nat)
    requires name in names
    ensures k < |names| && names[k] == name
    ensures forall j :: 0 <= j < k ==> names[j] != name
  {
    if names[0] == name then 0 else 1 + FirstIndex(names[1..], name)
  }

  /** Appending a label leaves the first position of every label already present alone. */
  lemma {:induction false} FirstIndexAppend(names: seq<string>, extra: string, name: string)
    requires name in names
    ensures name in names + [extra] && FirstIndex(names + [extra], name) == FirstIndex(names, name)
  {
    var k := FirstIndex(names, name);
    var k' := FirstIndex(names + [extra], name);
    assert (names + [extra])[k] == name;
    assert !(k' < k);
    assert !(k < k');
  }

  /** Each label put through the renaming map; labels the map does not mention stay. */
  function Renamed(names: seq<string>, m: map<string, string>): (r: seq<string>)
    ensures |r| == |names|
    ensures forall k :: 0 <= k < |names| && names[k] !in m ==> r[k] == names[k]
    ensures forall k :: 0 <= k < |names| && names[k] in m ==> r[k] == m[names[k]]
  {
    seq(|names|, k requires 0 <= k < |names| => if names[k] in m then m[names[k]] else names[k])
  }

  /** A renamed label shows up under its new name. */
  lemma RenamedHit(names: seq<string>, m: map<string, string>, x: string)
    requires x in names && x in m
    ensures m[x] in Renamed(names, m)
  {
    var i :| 0 <= i < |names| && names[i] == x;
    assert Renamed(names, m)[i] == m[x];
  }

  class Frame {
    var names: seq<string>
    var cols: seq<seq<Cell>>
    var height: nat

    /** One column per label, every column as long as the frame. */
    ghost predicate Valid()
      reads this
    {
      |cols| == |names| && forall k :: 0 <= k < |cols| ==> |cols[k]| == height
    }

    /** A frame as a loader delivers it. */
    constructor (names: seq<string>, cols: seq<seq<Cell>>, height: nat)
      requires |cols| == |names| && forall k :: 0 <= k < |cols| ==> |cols[k]| == height
      ensures Valid() && this.names == names && this.cols == cols && this.height == height
    {
      this.names := names;
      this.cols := cols;
      this.height := height;
    }

    /** `df[name]`: the cells of the first column with that label, or nothing (a KeyError). */
    function Column(name: string): (c: Option<seq<Cell>>)
      reads this
      requires Valid()
      ensures c.Some? <==> name in names
      ensures c.Some? ==> |c.value| == height
    {
      if name in names then Some(cols[FirstIndex(names, name)]) else None
    }

    /** `df[name] = values`: overwrite the column that has the label, or add it as the
        rightmost column. */
    method SetColumn(name: string, values: seq<Cell>)
      requires Valid() && |values| == height
      modifies this
      ensures Valid() && height == old(height)
      ensures Column(name) == Some(values)
      ensures name in old(names) ==> names == old(names) && cols == old(cols)[FirstIndex(old(names), name) := values]
      ensures name !in old(names) ==> names == old(names) + [name] && cols == old(cols) + [values]
      ensures forall n :: n != name ==> Column(n) == old(Column(n))
    {
      if name in names {
        cols := cols[FirstIndex(names, name) := values];
      } else {
        forall n | n in names
          ensures n in names + [name] && FirstIndex(names + [name], n) == FirstIndex(names, n)
        {
          FirstIndexAppend(names, name, n);
        }
        names := names + [name];
        cols := cols + [values];
      }
    }

    /** `df.rename(columns=m)`: relabel every column whose label the map mentions. */
    method Rename(m: map<string, string>)
      requires Valid()
      modifies this
      ensures Valid() && height == old(height) && cols == old(cols)
      ensures names == Renamed(old(names), m)
    {
      names := Renamed(names, m);
    }
  }
}
