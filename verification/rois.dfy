/**
 The registry of named regions of interest. The source keeps them in a Python
 dict, which iterates in insertion order and overwrites a key in place; the
 registry is therefore a sequence of named entries with that behaviour.
 */
module Rois {
  import opened Wrappers
  import opened Geometry

  /**
   A stored region: the top-left corner, then the exclusive right column
   `x + width` and the exclusive bottom row `y + height`, in the order of the
   stored tuple.
   */
  datatype Rect = Rect(topLeft: Point, right: int, bottom: int)

  /** One registry entry: the region's name and its rectangle. */
  datatype Entry = Entry(name: string, rect: Rect)

  type Registry = seq<Entry>

  /** The width a rectangle was defined with. */
  function Width(r: Rect): int {
    r.right - r.topLeft.x
  }

  /** The height a rectangle was defined with. */
  function Height(r: Rect): int {
    r.bottom - r.topLeft.y
  }

  /** The names in iteration order. */
  function Names(reg: Registry): seq<string> {
    seq(|reg|, i requires 0 <= i < |reg| => reg[i].name)
  }

  /** No name occurs twice, as for the keys of a dict. */
  predicate Distinct(reg: Registry) {
    forall i, j :: 0 <= i < j < |reg| ==> reg[i].name != reg[j].name
  }

  /** The rectangle stored under `name`, if any (`rois.get(name)`). */
  function Lookup(reg: Registry, name: string): (r: Option<Rect>)
    ensures r.Some? <==> name in Names(reg)
    ensures r.Some? ==> Entry(name, r.value) in reg
  {
    if reg == [] then None
    else
      NamesCons(reg);
      if reg[0].name == name then Some(reg[0].rect)
      else Lookup(reg[1..], name)
  }

  /** The names of a non-empty registry: the first, then those of the rest. */
  lemma NamesCons(reg: Registry)
    requires reg != []
    ensures Names(reg) == [reg[0].name] + Names(reg[1..])
  {
  }

  /** Replaces the rectangle of every entry called `name`, keeping positions. */
  function Overwrite(reg: Registry, name: string, rect: Rect): (r: Registry)
    ensures |r| == |reg|
    ensures forall i :: 0 <= i < |reg| ==> r[i] == (if reg[i].name == name then Entry(name, rect) else reg[i])
  {
    if reg == [] then []
    else [if reg[0].name == name then Entry(name, rect) else reg[0]] + Overwrite(reg[1..], name, rect)
  }

  /** Looking up in a registry depends only on its entries' names and rectangles in order. */
  lemma {:induction false} LookupOverwrite(reg: Registry, name: string, rect: Rect, other: string)
    ensures Lookup(Overwrite(reg, name, rect), other)
            == if other == name && name in Names(reg) then Some(rect)
               else if other == name then None
               else Lookup(reg, other)
  {
    if reg != [] {
      var r := Overwrite(reg, name, rect);
      assert r[1..] == Overwrite(reg[1..], name, rect);
      NamesCons(reg);
      if r[0].name != other {
        LookupOverwrite(reg[1..], name, rect, other);
      }
    }
  }

  /** Looking up after appending an entry falls back to the new entry. */
  lemma {:induction false} LookupAppend(reg: Registry, e: Entry, other: string)
    ensures Lookup(reg + [e], other)
            == if other in Names(reg) then Lookup(reg, other)
               else if other == e.name then Some(e.rect)
               else None
  {
    if reg != [] {
      assert (reg + [e])[1..] == reg[1..] + [e];
      NamesCons(reg);
      LookupAppend(reg[1..], e, other);
    }
  }

  /**
   `rois[name] = rect`: afterwards `name` maps to `rect` and every other name
   keeps its rectangle; a new name goes last, an existing one keeps its place.
   */
  function Put(reg: Registry, name: string, rect: Rect): (r: Registry)
    ensures Lookup(r, name) == Some(rect)
    ensures forall other :: other != name ==> Lookup(r, other) == Lookup(reg, other)
    ensures Names(r) == if name in Names(reg) then Names(reg) else Names(reg) + [name]
    ensures forall i :: 0 <= i < |reg| ==> r[i] == (if reg[i].name == name then Entry(name, rect) else reg[i])
    ensures Distinct(reg) ==> Distinct(r)
  {
    var r := if name in Names(reg) then Overwrite(reg, name, rect) else reg + [Entry(name, rect)];
    assert forall i :: 0 <= i < |reg| ==> Names(reg)[i] == reg[i].name;
    assert forall other :: Lookup(r, other) == (if other == name then Some(rect) else Lookup(reg, other)) by {
      forall other
        ensures Lookup(r, other) == (if other == name then Some(rect) else Lookup(reg, other))
      {
        if name in Names(reg) {
          LookupOverwrite(reg, name, rect, other);
        } else {
          LookupAppend(reg, Entry(name, rect), other);
        }
      }
    }
    r
  }

  /**
   `define_roi(name, top_left, width, height)`: the region is stored as the
   tuple `(top_left, x + width, y + height)`, from which the corner, width and
   height it was defined with can be read back; nothing is validated.
   */
  function DefineRoi(reg: Registry, name: string, topLeft: Point, width: int, height: int): (r: Registry)
    ensures Lookup(r, name).Some?
    ensures Lookup(r, name).value.topLeft == topLeft
    ensures Width(Lookup(r, name).value) == width && Height(Lookup(r, name).value) == height
    ensures forall other :: other != name ==> Lookup(r, other) == Lookup(reg, other)
    ensures Names(r) == if name in Names(reg) then Names(reg) else Names(reg) + [name]
    ensures Distinct(reg) ==> Distinct(r)
  {
    Put(reg, name, Rect(topLeft, topLeft.x + width, topLeft.y + height))
  }

  /** The registry as the dict it models, for distinct names. */
  function ToMap(reg: Registry): (m: map<string, Rect>)
    ensures forall name :: name in m <==> Lookup(reg, name).Some?
    ensures forall name :: name in m ==> m[name] == Lookup(reg, name).value
  {
    map name | name in Names(reg) :: Lookup(reg, name).value
  }

  /** `Put` behaves as the dict update `m[name := rect]`. */
  lemma PutIsDictUpdate(reg: Registry, name: string, rect: Rect)
    ensures ToMap(Put(reg, name, rect)) == ToMap(reg)[name := rect]
  {
    var r := Put(reg, name, rect);
    var lhs := ToMap(r);
    var rhs := ToMap(reg)[name := rect];
    forall k
      ensures k in lhs <==> k in rhs
      ensures k in lhs ==> lhs[k] == rhs[k]
    {
      if k == name {
        assert Lookup(r, k) == Some(rect);
      } else {
        assert Lookup(r, k) == Lookup(reg, k);
      }
    }
    assert lhs.Keys == rhs.Keys;
  }
}
