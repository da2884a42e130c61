/** One shard as the program keeps it: a list of entry objects and a map into it. */
module MetaShard {
  import opened Common
  import opened Text
  import opened MetaCache
  import opened MetaGrids

  class Entry {
    var row: Row

    constructor (call: bytes)
      ensures row == NewRow(call)
    {
      row := NewRow(call);
    }
  }

  ghost function Rows(order: seq<Entry>): (s: Recency)
    reads order
    ensures |s| == |order|
    ensures forall i :: 0 <= i < |order| ==> s[i] == order[i].row
  {
    if order == [] then [] else [order[0].row] + Rows(order[1..])
  }

  // ---------------------------------------------------------------- positions in the list

  lemma {:induction false} FindAt(s: Recency, p: nat)
    requires Distinct(s) && p < |s|
    ensures Find(s, s[p].call) == Some(s[p])
  {
    if p > 0 {
      DistinctTail(s);
      FindAt(s[1..], p - 1);
    }
  }

  lemma {:induction false} WithoutAt(s: Recency, p: nat)
    requires Distinct(s) && p < |s|
    ensures Without(s, s[p].call) == s[..p] + s[p + 1..]
  {
    DistinctTail(s);
    if p == 0 {
      WithoutAbsent(s[1..], s[0].call);
    } else {
      var t := s[1..];
      WithoutAt(t, p - 1);
      assert s[0].call != s[p].call;
      hide Distinct, Has;
      assert Without(s, s[p].call) == [s[0]] + (t[..p - 1] + t[p..]);
      Shifted(s, p);
    }
  }

  lemma Shifted(s: Recency, p: nat)
    requires 0 < p < |s|
    ensures [s[0]] + (s[1..][..p - 1] + s[1..][p..]) == s[..p] + s[p + 1..]
  {
  }

  predicate Unique<T(==)>(s: seq<T>) {
    forall i, j :: 0 <= i < j < |s| ==> s[i] != s[j]
  }

  /** list.MoveToFront on the element at p. */
  function ToFront<T>(s: seq<T>, p: nat): (r: seq<T>)
    requires p < |s|
    ensures |r| == |s| && r[0] == s[p]
  {
    [s[p]] + (s[..p] + s[p + 1..])
  }

  lemma ToFrontAt<T>(s: seq<T>, p: nat)
    requires p < |s|
    ensures forall i :: 0 <= i < |s| ==> ToFront(s, p)[i] == s[if i == 0 then p else if i <= p then i - 1 else i]
  {
  }

  lemma ToFrontMembers<T>(s: seq<T>, p: nat)
    requires p < |s|
    ensures forall x :: x in ToFront(s, p) <==> x in s
    ensures Unique(s) ==> Unique(ToFront(s, p))
  {
    ToFrontAt(s, p);
    var r := ToFront(s, p);
    forall x | x in s ensures x in r {
      var i :| 0 <= i < |s| && s[i] == x;
      assert r[if i == p then 0 else if i < p then i + 1 else i] == x;
    }
  }

  lemma UniqueCons<T>(x: T, s: seq<T>)
    requires Unique(s) && x !in s
    ensures Unique([x] + s)
  {
  }

  lemma ButLast<T>(s: seq<T>)
    requires Unique(s) && s != []
    ensures Unique(s[..|s| - 1])
    ensures forall x :: x in s[..|s| - 1] <==> x in s && x != s[|s| - 1]
  {
    var n := |s| - 1;
    forall x | x in s && x != s[n] ensures x in s[..n] {
      var i :| 0 <= i < |s| && s[i] == x;
      assert s[..n][i] == x;
    }
  }

  lemma FrontWithout(s: Recency, p: nat)
    requires Distinct(s) && p < |s|
    ensures ToFront(s, p) == [s[p]] + Without(s, s[p].call)
  {
    hide Without, Distinct;
    WithoutAt(s, p);
  }

  lemma RowsButLast(order: seq<Entry>)
    requires order != []
    ensures Rows(order[..|order| - 1]) == Rows(order)[..|order| - 1]
  {
    hide Rows;
  }

  lemma RowsCons(e: Entry, order: seq<Entry>)
    ensures Rows([e] + order) == [e.row] + Rows(order)
  {
    assert ([e] + order)[1..] == order;
  }

  lemma RowsToFront(order: seq<Entry>, p: nat)
    requires p < |order|
    ensures Rows(ToFront(order, p)) == ToFront(Rows(order), p)
  {
    hide Rows;
    ToFrontAt(order, p);
    ToFrontAt(Rows(order), p);
  }

  /** Updating the front row of a freshly trimmed list trims the updated list. */
  lemma BoundedFront(cfg: Config, row: Row, next: Row, s: Recency)
    requires cfg.max > 0 ==> |s| <= cfg.max
    ensures Bounded(cfg, [row] + s) != [] && Bounded(cfg, [row] + s)[0] == row
    ensures [next] + Bounded(cfg, [row] + s)[1..] == Bounded(cfg, [next] + s)
  {
  }

  // ---------------------------------------------------------------- list and map

  /** The map and the list hold the same entries, each once, under their own calls. */
  ghost predicate Agree(order: seq<Entry>, entries: map<bytes, Entry>)
    reads order
  {
    && Unique(order)
    && (forall e :: e in order ==> e.row.call in entries && entries[e.row.call] == e)
    && (forall c :: c in entries ==> entries[c] in order && entries[c].row.call == c)
    && |entries| == |order|
  }

  lemma EntryCount(order: seq<Entry>, entries: map<bytes, Entry>)
    requires Agree(order, entries)
    ensures |entries| == |order|
  {
  }

  lemma AgreeToFront(order: seq<Entry>, entries: map<bytes, Entry>, p: nat)
    requires Agree(order, entries) && p < |order|
    ensures Agree(ToFront(order, p), entries)
  {
    ToFrontMembers(order, p);
    hide ToFront;
  }

  lemma AgreePush(e: Entry, order: seq<Entry>, entries: map<bytes, Entry>)
    requires Agree(order, entries) && e.row.call !in entries
    ensures Agree([e] + order, entries[e.row.call := e])
  {
    hide Unique;
    UniqueCons(e, order);
  }

  /** Dropping the last entry from list and map leaves them agreeing. */
  lemma AgreeButLast(order: seq<Entry>, entries: map<bytes, Entry>)
    requires Agree(order, entries) && order != []
    ensures Agree(order[..|order| - 1], entries - {order[|order| - 1].row.call})
  {
    hide Unique;
    var tail := order[|order| - 1];
    assert tail in order;
    ButLast(order);
    assert entries.Keys == (entries - {tail.row.call}).Keys + {tail.row.call};
  }

  /** The field updates of ApplyRecord. */
  method Recorded(cfg: Config, was: Row, call: bytes, stored: Stored) returns (row: Row)
    ensures row == RowAfter(cfg, was, Op.ApplyRecord(call, stored))
  {
    hide ToUpper, TrimSpace;
    row := was;
    if stored.grid.Some? {
      var grid := ToUpper(TrimSpace(stored.grid.value));
      if grid != [] && !(row.gridValid && !row.gridDerived && stored.gridDerived) {
        if !row.gridValid || stored.updatedAt > row.updatedAt || (row.gridDerived && !stored.gridDerived) {
          row := WithGrid(row, grid, stored.gridDerived, stored.updatedAt);
        }
      }
    }
    row := row.(isKnown := stored.isKnown, knownChecked := true);
    if stored.cty.Some? { row := row.(cty := stored.cty, ctyChecked := true); }
  }

  /** The list after the row of a call was found or added. */
  predicate Entered(cfg: Config, s: Recency, call: bytes, mid: Recency) {
    mid == match Find(s, call)
           case Some(row) => [row] + Without(s, call)
           case None => Bounded(cfg, [NewRow(call)] + s)
  }

  /** Finding or adding the row of a call, then writing it, is the whole operation. */
  lemma FrontStep(cfg: Config, s: Recency, mid: Recency, op: Op)
    requires RecencyOk(cfg, s) && !Ignored(op) && Creates(op)
    requires Entered(cfg, s, op.call, mid)
    ensures mid != [] && [RowAfter(cfg, mid[0], op)] + mid[1..] == Step(cfg, s, op)
  {
    hide Find, Without, RowAfter, Distinct;
    BoundedFront(cfg, NewRow(op.call), RowAfter(cfg, NewRow(op.call), op), s);
  }

  class Shard {
    const cfg: Config
    var order: seq<Entry>
    var entries: map<bytes, Entry>

    ghost predicate Valid()
      reads this, order
    {
      Agree(order, entries) && (cfg.max > 0 ==> |order| <= cfg.max)
    }

    ghost function Abs(): (s: Recency)
      reads this, order
    {
      Rows(order)
    }

    constructor (cfg: Config)
      ensures Valid() && this.cfg == cfg && Abs() == [] && order == []
    {
      this.cfg := cfg;
      order := [];
      entries := map[];
    }

    /** A valid shard stands for a list of distinct calls, and its map finds what the list holds. */
    lemma Stands()
      requires Valid()
      ensures RecencyOk(cfg, Abs())
      ensures forall c :: c in entries ==> entries[c] in order && Find(Abs(), c) == Some(entries[c].row)
      ensures forall c :: c !in entries ==> Find(Abs(), c) == None
    {
      hide Find, Rows;
      assert forall i :: 0 <= i < |order| ==> order[i] in order;
      assert Distinct(Abs());
      forall c | c in entries ensures Find(Abs(), c) == Some(entries[c].row) {
        var p :| 0 <= p < |order| && order[p] == entries[c];
        FindAt(Abs(), p);
      }
      forall c | c !in entries ensures Find(Abs(), c) == None { HasIff(Abs(), c); }
    }

    method MoveToFront(e: Entry)
      requires Valid() && e in order
      modifies this`order
      ensures Valid() && |order| > 0 && order[0] == e && entries == old(entries)
      ensures forall x :: x in order <==> x in old(order)
      ensures Abs() == [e.row] + Without(old(Abs()), e.row.call)
    {
      hide Rows, Without, Agree, Distinct, ToFront, Find;
      var p :| 0 <= p < |order| && order[p] == e;
      Stands();
      FrontWithout(Abs(), p);
      RowsToFront(order, p);
      ToFrontMembers(order, p);
      AgreeToFront(order, entries, p);
      order := ToFront(order, p);
    }

    method AddEntry(call: bytes) returns (e: Entry)
      requires Valid() && call !in entries
      modifies this
      ensures Valid() && fresh(e) && e.row == NewRow(call)
      ensures |order| > 0 && order[0] == e
      ensures forall x :: x in order ==> x == e || x in old(order)
      ensures Abs() == Bounded(cfg, [NewRow(call)] + old(Abs()))
    {
      hide Rows, Agree;
      EntryCount(order, entries);
      e := PushFront(call);
      EntryCount(order, entries);
      if cfg.max > 0 && |entries| > cfg.max { RemoveBack(); }
    }

    method PushFront(call: bytes) returns (e: Entry)
      requires Agree(order, entries) && call !in entries
      modifies this
      ensures Agree(order, entries) && fresh(e) && e.row == NewRow(call)
      ensures order == [e] + old(order) && Abs() == [NewRow(call)] + old(Abs())
    {
      hide Rows, Agree;
      e := new Entry(call);
      AgreePush(e, order, entries);
      RowsCons(e, order);
      order := [e] + order;
      entries := entries[call := e];
    }

    method RemoveBack()
      requires Agree(order, entries) && |order| > 0
      modifies this
      ensures Agree(order, entries)
      ensures order == old(order)[..|old(order)| - 1] && Abs() == old(Abs())[..|old(order)| - 1]
    {
      hide Rows, Agree;
      var tail := order[|order| - 1];
      AgreeButLast(order, entries);
      RowsButLast(order);
      order := order[..|order| - 1];
      entries := entries - {tail.row.call};
    }

    method GetOrCreate(call: bytes) returns (e: Entry)
      requires Valid()
      modifies this
      ensures Valid() && |order| > 0 && order[0] == e && e.row.call == call
      ensures e in old(order) || fresh(e)
      ensures forall x :: x in order ==> x in old(order) || fresh(x)
      ensures Entered(cfg, old(Abs()), call, Abs())
    {
      hide Rows, Without, Find, Valid, RecencyOk;
      Stands();
      if call in entries {
        e := entries[call];
        MoveToFront(e);
      } else {
        e := AddEntry(call);
      }
    }

    /** Writes the fields of the entry in front. */
    method SetFront(e: Entry, row: Row)
      requires Valid() && |order| > 0 && order[0] == e && row.call == e.row.call
      modifies e
      ensures Valid() && order == old(order) && Abs() == [row] + old(Abs())[1..]
    {
      hide Rows;
      assert forall i :: 0 < i < |order| ==> order[i] != e;
      e.row := row;
    }

    /** LookupGrid's lock section: what it answers, and what it leaves. */
    method LookupGrid(call: bytes, now: int) returns (grid: bytes, derived: bool, ok: bool)
      requires Valid()
      modifies this, order
      ensures Valid() && Abs() == Step(cfg, old(Abs()), Op.LookupGrid(call, now))
      ensures forall x :: x in order ==> x in old(order) || fresh(x)
      ensures (if ok then Some((grid, derived)) else None) == Answer(cfg, old(Abs()), call, now)
    {
      hide Rows, Without, Find, Expired, Valid, Distinct;
      if call == [] { return [], false, false; }
      Stands();
      if call !in entries { return [], false, false; }
      var e := entries[call];
      LiveIff(cfg, e.row, now);
      MoveToFront(e);
      if e.row.gridValid {
        if Expired(cfg, e.row, now) {
          SetFront(e, Invalidated(e.row));
          return [], false, false;
        }
        return e.row.grid, e.row.gridDerived, true;
      }
      return [], false, false;
    }

    /** UpdateGrid: true when the grid is new to the cache and needs persisting. */
    method UpdateGrid(call: bytes, grid: bytes, derived: bool, now: int) returns (changed: bool)
      requires Valid()
      modifies this, order
      ensures Valid() && Abs() == Step(cfg, old(Abs()), Op.UpdateGrid(call, grid, derived, now))
      ensures forall x :: x in order ==> x in old(order) || fresh(x)
      ensures changed <==>
              call != [] && grid != []
              && (Has(old(Abs()), call) ==> Writes(cfg, Find(old(Abs()), call).value, grid, derived, now))
    {
      hide Rows, Without, Find, Expired, Valid, Distinct;
      if call == [] || grid == [] { return false; }
      Stands();
      ghost var was := Abs();
      if call in entries {
        var e := entries[call];
        MoveToFront(e);
        var expired := Expired(cfg, e.row, now);
        if e.row.gridValid && e.row.grid == grid && e.row.gridDerived == derived && !expired { return false; }
        if derived && e.row.gridValid && !e.row.gridDerived { return false; }
        SetFront(e, WithGrid(e.row, grid, derived, now));
        return true;
      }
      var e := AddEntry(call);
      BoundedFront(cfg, NewRow(call), WithGrid(NewRow(call), grid, derived, now), was);
      SetFront(e, WithGrid(e.row, grid, derived, now));
      return true;
    }

    method ApplyRecord(call: bytes, stored: Stored)
      requires Valid()
      modifies this, order
      ensures Valid() && Abs() == Step(cfg, old(Abs()), Op.ApplyRecord(call, stored))
      ensures forall x :: x in order ==> x in old(order) || fresh(x)
    {
      hide Rows, Without, Find, Valid, RecencyOk, Step, Entered, RowAfter;
      ghost var was, op := Abs(), Op.ApplyRecord(call, stored);
      if call == [] {
        IgnoredStep(cfg, was, op);
        return;
      }
      Stands();
      var e := GetOrCreate(call);
      var row := Recorded(cfg, e.row, call, stored);
      FrontStep(cfg, was, Abs(), op);
      SetFront(e, row);
    }

    method SetKnown(call: bytes, known: bool)
      requires Valid()
      modifies this, order
      ensures Valid() && Abs() == Step(cfg, old(Abs()), Op.SetKnown(call, known))
      ensures forall x :: x in order ==> x in old(order) || fresh(x)
    {
      hide Rows, Without, Find, Valid, RecencyOk, Step, Entered;
      ghost var was, op := Abs(), Op.SetKnown(call, known);
      if call == [] {
        IgnoredStep(cfg, was, op);
        return;
      }
      Stands();
      var e := GetOrCreate(call);
      var row := e.row.(isKnown := known, knownChecked := true);
      FrontStep(cfg, was, Abs(), op);
      SetFront(e, row);
    }

    /** LookupCTY's first lock section: a cached answer, found or not. */
    method PeekCty(call: bytes) returns (info: Option<Info>, hit: bool)
      requires Valid()
      modifies this`order
      ensures Valid() && Abs() == Step(cfg, old(Abs()), Op.PeekCty(call))
      ensures forall x :: x in order <==> x in old(order)
      ensures hit <==> call != [] && Has(old(Abs()), call) && Find(old(Abs()), call).value.ctyChecked
      ensures hit ==> info == Find(old(Abs()), call).value.cty
      ensures (if hit then Some(info) else None) == CtyAnswer(old(Abs()), call)
    {
      hide Rows, Without, Find, Valid, Distinct;
      if call == [] { return None, false; }
      Stands();
      if call !in entries { return None, false; }
      var e := entries[call];
      MoveToFront(e);
      return e.row.cty, e.row.ctyChecked;
    }

    /** LookupCTY's second lock section: the database's answer is kept, found or not. */
    method StoreCty(call: bytes, found: Option<Info>)
      requires Valid()
      modifies this, order
      ensures Valid() && Abs() == Step(cfg, old(Abs()), Op.StoreCty(call, found))
      ensures forall x :: x in order ==> x in old(order) || fresh(x)
    {
      hide Rows, Without, Find, Valid, RecencyOk, Step, Entered;
      ghost var was, op := Abs(), Op.StoreCty(call, found);
      if call == [] {
        IgnoredStep(cfg, was, op);
        return;
      }
      Stands();
      var e := GetOrCreate(call);
      var row := e.row.(cty := found, ctyChecked := true);
      FrontStep(cfg, was, Abs(), op);
      SetFront(e, row);
    }

    method Clear()
      requires Valid()
      modifies this
      ensures Valid() && Abs() == Step(cfg, old(Abs()), Op.Clear) && order == []
    {
      order := [];
      entries := map[];
    }
  }
}
