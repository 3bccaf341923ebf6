/**
 * The JSON dump: the result rows in identifier order, optionally only the
 * hits that carry an identifier, with at most a given number of rows per
 * identifier.
 */
module Dump {
  import opened Options
  import opened Strings
  import opened Results

  /** The rows the hits-only query selects: hits with a non-null identifier. */
  function OnlyIdentifierHits(rows: OutTable): (r: OutTable)
    ensures |r| <= |rows|
    ensures forall k :: 0 <= k < |r| ==> r[k].hit && r[k].identifier.Some? && r[k] in rows
    ensures forall i :: 0 <= i < |rows| && rows[i].hit && rows[i].identifier.Some? ==> rows[i] in r
  {
    if rows == [] then []
    else
      var rest := OnlyIdentifierHits(rows[1..]);
      assert forall i :: 1 <= i < |rows| ==> rows[i] == rows[1..][i - 1];
      if rows[0].hit && rows[0].identifier.Some? then [rows[0]] + rest else rest
  }

  /** A single row is selected exactly when it is a hit with an identifier. */
  lemma OnlyIdentifierHitsSingle(x: CrawlResult)
    ensures OnlyIdentifierHits([x]) == if x.hit && x.identifier.Some? then [x] else []
  {
    assert [x][1..] == [];
  }

  /**
   * The selection keeps the table's order: selecting from two tables one
   * after the other appends their selections. With the one-row case this
   * fixes the result, each selected row exactly once.
   */
  lemma {:induction false} OnlyIdentifierHitsAppend(a: OutTable, b: OutTable)
    ensures OnlyIdentifierHits(a + b) == OnlyIdentifierHits(a) + OnlyIdentifierHits(b)
    decreases |a|
  {
    if a == [] {
      assert a + b == b;
    } else {
      assert (a + b)[0] == a[0];
      assert (a + b)[1..] == a[1..] + b;
      OnlyIdentifierHitsAppend(a[1..], b);
    }
  }

  /**
   * Whether the row with position `count` in its identifier group (the
   * first row is position 0) is held back. No cap, or a cap of zero, holds
   * nothing back. The dump as written holds back a row only past the cap
   * (`fixed` false); the cap as documented holds back from the cap on.
   */
  predicate HeldBack(fixed: bool, max: Option<int>, count: nat)
  {
    max.Some? && max.value != 0 && (if fixed then count >= max.value else count > max.value)
  }

  /**
   * The dump loop over rows in query order. `last` is the identifier of the
   * current group and `count` the position of its latest row; a falsy
   * identifier never opens a group.
   */
  function DumpRows(rows: OutTable, max: Option<int>, fixed: bool, last: Option<string>, count: nat): OutTable
    decreases |rows|
  {
    if rows == [] then []
    else
      var row := rows[0];
      if Truthy(last) && row.identifier == last then
        if HeldBack(fixed, max, count + 1) then DumpRows(rows[1..], max, fixed, last, count + 1)
        else [row] + DumpRows(rows[1..], max, fixed, row.identifier, count + 1)
      else [row] + DumpRows(rows[1..], max, fixed, row.identifier, 0)
  }

  /** The dump as the source writes it. */
  function DumpAsWritten(rows: OutTable, max: Option<int>): OutTable
  {
    DumpRows(rows, max, false, None, 0)
  }

  /** The dump with the cap the option documents. */
  function DumpCapped(rows: OutTable, max: Option<int>): OutTable
  {
    DumpRows(rows, max, true, None, 0)
  }

  function Min(a: int, b: int): int
  {
    if a <= b then a else b
  }

  /** How many of `n` further rows of a group whose latest row is at position `count` are dumped. */
  function Emitted(fixed: bool, max: nat, count: nat, n: nat): (e: nat)
    ensures e <= n
  {
    var room := max - count - (if fixed then 1 else 0);
    if room <= 0 then 0 else Min(room, n)
  }

  /** Every row in `block` carries identifier `id`. */
  predicate AllOf(block: OutTable, id: string)
  {
    forall k :: 0 <= k < |block| ==> block[k].identifier == Some(id)
  }

  /**
   * Inside a group, the dump keeps a leading part of the further rows of
   * that identifier (as many as `Emitted` says) and carries on after them
   * with the group's position advanced past all of them.
   */
  lemma {:induction false} InGroup(id: string, block: OutTable, rest: OutTable, max: nat, fixed: bool, count: nat)
    requires id != "" && max > 0 && AllOf(block, id)
    ensures DumpRows(block + rest, Some(max), fixed, Some(id), count)
            == block[..Emitted(fixed, max, count, |block|)] + DumpRows(rest, Some(max), fixed, Some(id), count + |block|)
    decreases |block|
  {
    if block == [] {
      assert block + rest == rest;
    } else {
      var tail := block[1..];
      assert (block + rest)[0] == block[0];
      assert (block + rest)[1..] == tail + rest;
      assert AllOf(tail, id) by {
        forall k | 0 <= k < |tail|
          ensures tail[k].identifier == Some(id)
        {
          assert tail[k] == block[k + 1];
        }
      }
      InGroup(id, tail, rest, max, fixed, count + 1);
      var e := Emitted(fixed, max, count, |block|);
      if HeldBack(fixed, Some(max), count + 1) {
        assert e == 0;
        assert Emitted(fixed, max, count + 1, |tail|) == 0;
      } else {
        assert e == 1 + Emitted(fixed, max, count + 1, |tail|);
        assert block[..e] == [block[0]] + tail[..e - 1];
      }
    }
  }

  /**
   * A group of `n` rows with the same truthy identifier, entered from a
   * different identifier, dumps its first `max` rows when the cap is the
   * documented one.
   */
  lemma DumpCappedGroup(id: string, block: OutTable, rest: OutTable, max: nat, last: Option<string>, count: nat)
    requires id != "" && max > 0 && AllOf(block, id) && |block| > 0
    requires last != Some(id)
    ensures DumpRows(block + rest, Some(max), true, last, count)
            == block[..Min(|block|, max)] + DumpRows(rest, Some(max), true, Some(id), |block| - 1)
  {
    GroupStart(id, block, rest, max, true, last, count);
  }

  /** The dump as written lets one row more than the cap through from each group. */
  lemma DumpAsWrittenGroup(id: string, block: OutTable, rest: OutTable, max: nat, last: Option<string>, count: nat)
    requires id != "" && max > 0 && AllOf(block, id) && |block| > 0
    requires last != Some(id)
    ensures DumpRows(block + rest, Some(max), false, last, count)
            == block[..Min(|block|, max + 1)] + DumpRows(rest, Some(max), false, Some(id), |block| - 1)
  {
    GroupStart(id, block, rest, max, false, last, count);
  }

  lemma GroupStart(id: string, block: OutTable, rest: OutTable, max: nat, fixed: bool, last: Option<string>, count: nat)
    requires id != "" && max > 0 && AllOf(block, id) && |block| > 0
    requires last != Some(id)
    ensures DumpRows(block + rest, Some(max), fixed, last, count)
            == block[..Emitted(fixed, max + 1, 0, |block|)]
               + DumpRows(rest, Some(max), fixed, Some(id), |block| - 1)
  {
    var tail := block[1..];
    assert (block + rest)[0] == block[0];
    assert (block + rest)[1..] == tail + rest;
    assert AllOf(tail, id) by {
      forall k | 0 <= k < |tail|
        ensures tail[k].identifier == Some(id)
      {
        assert tail[k] == block[k + 1];
      }
    }
    InGroup(id, tail, rest, max, fixed, 0);
    var e := Emitted(fixed, max + 1, 0, |block|);
    assert e == 1 + Emitted(fixed, max, 0, |tail|);
    assert block[..e] == [block[0]] + tail[..e - 1];
  }

  /**
   * The discrepancy on the smallest input: two rows of one identifier
   * with a cap of one. The dump as written emits both; the documented cap
   * emits one.
   */
  lemma CapOffByOne(a: CrawlResult)
    requires Truthy(a.identifier)
    ensures |DumpAsWritten([a, a], Some(1))| == 2
    ensures |DumpCapped([a, a], Some(1))| == 1
  {
    var id := a.identifier.value;
    assert AllOf([a, a], id);
    assert [a, a] + [] == [a, a];
    DumpAsWrittenGroup(id, [a, a], [], 1, None, 0);
    DumpCappedGroup(id, [a, a], [], 1, None, 0);
  }

  /** Without a cap (none, or zero) every row is dumped, in order. */
  lemma {:induction false} NoCapDumpsAll(rows: OutTable, max: Option<int>, fixed: bool, last: Option<string>, count: nat)
    requires max.None? || max.value == 0
    ensures DumpRows(rows, max, fixed, last, count) == rows
    decreases |rows|
  {
    if rows != [] {
      NoCapDumpsAll(rows[1..], max, fixed, rows[0].identifier, 0);
      NoCapDumpsAll(rows[1..], max, fixed, last, count + 1);
    }
  }

  /**
   * The dump only drops rows: every dumped row is an input row, every row
   * with a falsy identifier is dumped, and so is every row that opens a
   * new group.
   */
  lemma {:induction false} DumpKeeps(rows: OutTable, max: Option<int>, fixed: bool, last: Option<string>, count: nat)
    ensures var out := DumpRows(rows, max, fixed, last, count);
            && |out| <= |rows|
            && (forall k :: 0 <= k < |out| ==> out[k] in rows)
            && (forall i :: 0 <= i < |rows| && !Truthy(rows[i].identifier) ==> rows[i] in out)
            && (rows != [] && rows[0].identifier != last ==> out != [] && out[0] == rows[0])
    decreases |rows|
  {
    if rows != [] {
      var row := rows[0];
      var tail := rows[1..];
      var out := DumpRows(rows, max, fixed, last, count);
      var grouped := Truthy(last) && row.identifier == last;
      var last' := if grouped && HeldBack(fixed, max, count + 1) then last else row.identifier;
      var count' := if grouped then count + 1 else 0;
      DumpKeeps(tail, max, fixed, last', count');
      var rest := DumpRows(tail, max, fixed, last', count');
      assert out == rest || out == [row] + rest;
      forall i | 0 <= i < |rows| && !Truthy(rows[i].identifier)
        ensures rows[i] in out
      {
        if i > 0 {
          assert rows[i] == tail[i - 1];
        }
      }
    }
  }
}
