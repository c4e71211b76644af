/**
 * The persistence gateway of backend/internal/db_manager.py. The MySQL
 * server is abstracted to the pixel table as a map, the list of snapshot
 * ids, and the trace of statements sent; every method is a no-op without a
 * connection.
 */
module Persistence {
  import opened Common
  import opened Numerals
  import opened Board

  /** Python's `hex(c)`: a `0x` prefix and lower-case digits, the sign in front. */
  function PyHex(c: int): string
  {
    if c < 0 then "-0x" + Digits(-c, Hexadecimal, false) else "0x" + Digits(c, Hexadecimal, false)
  }

  /** Python's `s[:n]`. */
  function Take(s: string, n: nat): string
  {
    if |s| <= n then s else s[..n]
  }

  /** `bytes.fromhex(hex(c)[2:].zfill(6)[:6])`: the stored bytes of a colour; None is the ValueError. */
  function EncodeColor(c: int): Option<seq<byte>>
  {
    FromHex(Take(ZFill(PyHex(c)[2..], 6), 6))
  }

  /** A 24-bit colour is stored as its three big-endian bytes, and `int.from_bytes` recovers it. */
  lemma EncodeColorRoundTrip(c: int)
    requires 0 <= c <= 0xFFFFFF
    ensures EncodeColor(c).Some? && |EncodeColor(c).value| == 3
    ensures FromBytesBE(EncodeColor(c).value) == c
  {
    var d := Digits(c, Hexadecimal, false);
    assert PyHex(c)[2..] == d;
    assert Pow16(6) == 0x1000000;
    HexDigitsAtMost(c, false, 6);
    DigitsValue(c, Hexadecimal, false);
    assert d[0] != '-' && d[0] != '+';
    PadLeftValue(d, 6, Hexadecimal);
    var f := PadLeft(d, 6);
    assert Take(ZFill(d, 6), 6) == f;
    HexPairsValue(f);
  }

  /** Above 0xFFFFFF the six most significant hex digits are kept, not the low 24 bits. */
  lemma EncodeColorKeepsHighDigits(c: int)
    requires c > 0xFFFFFF
    ensures EncodeColor(c).Some? && |EncodeColor(c).value| == 3
    ensures |Digits(c, Hexadecimal, false)| > 6
    ensures FromBytesBE(EncodeColor(c).value) == c / Pow16(|Digits(c, Hexadecimal, false)| - 6)
  {
    var d := Digits(c, Hexadecimal, false);
    assert PyHex(c)[2..] == d;
    assert Pow16(6) == 0x1000000;
    HexDigitsMoreThan(c, false, 6);
    DigitsValue(c, Hexadecimal, false);
    assert d[0] != '-' && d[0] != '+';
    assert Take(ZFill(d, 6), 6) == d[..6];
    HexPrefixValue(d, 6);
    var high := d[..6];
    assert |high| == 6 && AllDigits(high, Hexadecimal);
    HexPairsValue(high);
  }

  /** A negative colour leaves an `x` in the digits, so `fromhex` raises. */
  lemma EncodeColorNegative(c: int)
    requires c < 0
    ensures EncodeColor(c).None?
  {
    var s := PyHex(c)[2..];
    assert s == "x" + Digits(-c, Hexadecimal, false);
    var t := Take(ZFill(s, 6), 6);
    if |s| < 6 {
      assert ZFill(s, 6) == Zeros(6 - |s|) + s;
      assert t[6 - |s|] == 'x';
      assert !IsDigit(t[6 - |s|], Hexadecimal);
    } else {
      assert t[0] == 'x';
      assert !IsDigit(t[0], Hexadecimal);
    }
  }

  /** The statements the gateway sends, in order. */
  datatype Statement =
    | InsertPixel(x: int, y: int, color: seq<byte>)
    | UpdatePixel(x: int, y: int, color: seq<byte>)
    | TruncatePixels
    | DeleteSnapshots
    | DeleteSnapshotPixels
    | ResetSnapshotCounter
    | CallCreateSnapshot(name: string)
    | DeleteLowestSnapshot
    | SelectPixels
    | Commit

  /** How the connection attempt of the constructor ends. */
  datatype ConnectOutcome =
    | Refused      // connect raised mysql.connector.Error
    | NotLive      // a connection object, but is_connected() is false
    | Live

  /** The smallest snapshot id. */
  function Lowest(ids: seq<int>): (m: int)
    requires |ids| > 0
    ensures m in ids && forall i :: 0 <= i < |ids| ==> m <= ids[i]
  {
    if |ids| == 1 then ids[0]
    else
      var rest := Lowest(ids[1..]);
      assert forall i :: 1 <= i < |ids| ==> ids[i] == ids[1..][i - 1];
      if ids[0] <= rest then ids[0] else rest
  }

  /** `DELETE FROM snapshots ORDER BY id ASC LIMIT 1`: one copy of the lowest id goes. */
  function RemoveLowest(ids: seq<int>): (r: seq<int>)
    ensures |ids| > 0 ==> |r| == |ids| - 1 && multiset(r) + multiset{Lowest(ids)} == multiset(ids)
    ensures |ids| == 0 ==> r == []
  {
    if |ids| == 0 then []
    else
      var k := FirstIndexOf(ids, Lowest(ids)).value;
      assert ids == ids[..k] + [ids[k]] + ids[k + 1..];
      ids[..k] + ids[k + 1..]
  }

  /** The rows `SELECT x, y, color FROM pixel_board` returns: each table entry once, in some order. */
  ghost predicate RowsOfTable(rows: seq<StoredPixel>, table: map<(int, int), seq<byte>>)
  {
    (forall i :: 0 <= i < |rows| ==> (rows[i].x, rows[i].y) in table && table[(rows[i].x, rows[i].y)] == rows[i].color) &&
    (forall k :: k in table ==> exists i :: 0 <= i < |rows| && (rows[i].x, rows[i].y) == k) &&
    (forall i, j :: 0 <= i < j < |rows| ==> (rows[i].x, rows[i].y) != (rows[j].x, rows[j].y))
  }

  class DBManager {
    /** Whether `_connection` is set. */
    var connected: bool
    /** The volatile-mode flag the constructor raises on a failed connection. */
    var volatile: bool
    /** `_max_snapshots`, never assigned when the connection is refused. */
    var maxSnapshots: Option<int>
    var table: map<(int, int), seq<byte>>
    var snapshots: seq<int>
    var trace: seq<Statement>

    ghost predicate Valid()
      reads this
    {
      connected ==> maxSnapshots.Some?
    }

    /**
     * Connects; on a refused connection, switches to volatile mode and returns
     * at once. Otherwise runs reset_db with the flags, then records the limit.
     */
    constructor (outcome: ConnectOutcome, maxSnapshots: int, resetBoard: bool, resetSnapshots: bool,
                 table: map<(int, int), seq<byte>>, snapshots: seq<int>)
      ensures Valid()
      ensures connected <==> outcome != Refused
      ensures volatile <==> outcome != Live
      ensures outcome == Refused ==> this.maxSnapshots.None? && trace == [] && this.table == table && this.snapshots == snapshots
      ensures outcome != Refused ==> this.maxSnapshots == Some(maxSnapshots) && trace == ResetStatements(resetBoard, resetSnapshots)
      ensures outcome != Refused ==> this.table == (if resetBoard then map[] else table)
      ensures outcome != Refused ==> this.snapshots == (if resetSnapshots then [] else snapshots)
    {
      this.table := table;
      this.snapshots := snapshots;
      trace := [];
      this.maxSnapshots := None;
      connected := outcome != Refused;
      volatile := outcome != Live;
      new;
      if outcome != Refused {
        ResetDb(resetBoard, resetSnapshots);
        this.maxSnapshots := Some(maxSnapshots);
      }
    }

    /** `_close_connection`: drops the connection if there is one. */
    method Close()
      requires Valid()
      modifies this
      ensures Valid() && !connected
      ensures table == old(table) && snapshots == old(snapshots) && trace == old(trace)
      ensures volatile == old(volatile) && maxSnapshots == old(maxSnapshots)
    {
      if connected {
        connected := false;
      }
    }

    /** `commit`: sends COMMIT when connected. */
    method CommitChanges()
      modifies this
      ensures connected == old(connected) && volatile == old(volatile) && maxSnapshots == old(maxSnapshots)
      ensures table == old(table) && snapshots == old(snapshots)
      ensures trace == old(trace) + (if connected then [Commit] else [])
    {
      if !connected {
        return;
      }
      trace := trace + [Commit];
    }

    /**
     * `modify_pixel`: encodes the colour (a ValueError before any statement
     * when it cannot), tries INSERT, falls back to UPDATE when the row exists,
     * and commits either way: an upsert.
     */
    method ModifyPixel(x: int, y: int, hexColor: int) returns (ok: bool)
      requires Valid()
      modifies this
      ensures Valid() && connected == old(connected) && snapshots == old(snapshots)
      ensures volatile == old(volatile) && maxSnapshots == old(maxSnapshots)
      ensures !connected ==> ok && table == old(table) && trace == old(trace)
      ensures connected ==> (ok <==> EncodeColor(hexColor).Some?)
      ensures connected && !ok ==> table == old(table) && trace == old(trace)
      ensures connected && ok ==> table == old(table)[(x, y) := EncodeColor(hexColor).value]
      ensures connected && ok ==> (trace == old(trace) + [InsertPixel(x, y, EncodeColor(hexColor).value)] +
        (if (x, y) in old(table) then [UpdatePixel(x, y, EncodeColor(hexColor).value)] else []) + [Commit])
    {
      if !connected {
        return true;
      }
      var encoded := EncodeColor(hexColor);
      if encoded.None? {
        return false;
      }
      var bytes := encoded.value;
      trace := trace + [InsertPixel(x, y, bytes)];
      if (x, y) in table {
        trace := trace + [UpdatePixel(x, y, bytes)];
      }
      table := table[(x, y) := bytes];
      CommitChanges();
      return true;
    }

    /**
     * `create_quick_snapshot`: the stored function adds a snapshot and returns
     * its id (None when the call raises, which is caught); exactly when that id
     * exceeds the limit, the lowest snapshot is deleted. It commits either way.
     */
    method CreateQuickSnapshot(name: string, created: Option<int>)
      requires Valid()
      modifies this
      ensures Valid() && connected == old(connected) && table == old(table)
      ensures volatile == old(volatile) && maxSnapshots == old(maxSnapshots)
      ensures !connected ==> snapshots == old(snapshots) && trace == old(trace)
      ensures connected && created.None? ==> snapshots == old(snapshots) && trace == old(trace) + [CallCreateSnapshot(name), Commit]
      ensures connected && created.Some? && created.value > maxSnapshots.value ==>
        snapshots == RemoveLowest(old(snapshots) + [created.value]) &&
        trace == old(trace) + [CallCreateSnapshot(name), DeleteLowestSnapshot, Commit]
      ensures connected && created.Some? && created.value <= maxSnapshots.value ==>
        snapshots == old(snapshots) + [created.value] && trace == old(trace) + [CallCreateSnapshot(name), Commit]
    {
      if !connected {
        return;
      }
      trace := trace + [CallCreateSnapshot(name)];
      if created.Some? {
        snapshots := snapshots + [created.value];
        if created.value > maxSnapshots.value {
          trace := trace + [DeleteLowestSnapshot];
          snapshots := RemoveLowest(snapshots);
        }
      }
      CommitChanges();
    }

    /** `reset_db`: the statements each flag selects, in source order, and a commit iff some flag is set. */
    method ResetDb(resetBoard: bool, resetSnapshots: bool)
      modifies this
      ensures connected == old(connected) && volatile == old(volatile) && maxSnapshots == old(maxSnapshots)
      ensures !connected ==> table == old(table) && snapshots == old(snapshots) && trace == old(trace)
      ensures connected ==> trace == old(trace) + ResetStatements(resetBoard, resetSnapshots)
      ensures connected ==> table == (if resetBoard then map[] else old(table))
      ensures connected ==> snapshots == (if resetSnapshots then [] else old(snapshots))
    {
      if !connected {
        return;
      }
      if resetBoard {
        trace := trace + [TruncatePixels];
        table := map[];
      }
      ghost var afterBoard := trace;
      if resetSnapshots {
        trace := trace + [DeleteSnapshots];
        snapshots := [];
      }
      if resetSnapshots {
        trace := trace + [DeleteSnapshotPixels];
      }
      if resetSnapshots {
        trace := trace + [ResetSnapshotCounter];
      }
      assert trace == afterBoard + (if resetSnapshots then [DeleteSnapshots, DeleteSnapshotPixels, ResetSnapshotCounter] else []);
      ghost var beforeCommit := trace;
      if resetSnapshots || resetBoard {
        CommitChanges();
      }
      assert trace == beforeCommit + (if resetBoard || resetSnapshots then [Commit] else []);
    }

    /** `get_pixels`: every row of the pixel table once, in the server's order; None without a connection. */
    method GetPixels() returns (rows: Option<seq<StoredPixel>>)
      requires Valid()
      modifies this
      ensures Valid() && connected == old(connected) && table == old(table) && snapshots == old(snapshots)
      ensures volatile == old(volatile) && maxSnapshots == old(maxSnapshots)
      ensures !connected ==> rows.None? && trace == old(trace)
      ensures connected ==> rows.Some? && RowsOfTable(rows.value, table) && trace == old(trace) + [SelectPixels]
    {
      if !connected {
        return None;
      }
      trace := trace + [SelectPixels];
      var out: seq<StoredPixel> := [];
      var remaining := table.Keys;
      while remaining != {}
        invariant remaining <= table.Keys
        invariant forall i :: 0 <= i < |out| ==>
          (out[i].x, out[i].y) in table.Keys - remaining && table[(out[i].x, out[i].y)] == out[i].color
        invariant forall k :: k in table.Keys - remaining ==> exists i :: 0 <= i < |out| && (out[i].x, out[i].y) == k
        invariant forall i, j :: 0 <= i < j < |out| ==> (out[i].x, out[i].y) != (out[j].x, out[j].y)
        decreases |remaining|
      {
        var k :| k in remaining;
        ghost var prev := out;
        out := out + [StoredPixel(k.0, k.1, table[k])];
        assert forall i :: 0 <= i < |prev| ==> out[i] == prev[i];
        assert (out[|prev|].x, out[|prev|].y) == k;
        forall k' | k' in table.Keys - (remaining - {k})
          ensures exists i :: 0 <= i < |out| && (out[i].x, out[i].y) == k'
        {
          if k' != k {
            assert k' in table.Keys - remaining;
            var i :| 0 <= i < |prev| && (prev[i].x, prev[i].y) == k';
            assert out[i] == prev[i];
          }
        }
        remaining := remaining - {k};
      }
      assert table.Keys - remaining == table.Keys;
      return Some(out);
    }
  }

  /** The statements reset_db sends for its two flags. */
  function ResetStatements(resetBoard: bool, resetSnapshots: bool): (s: seq<Statement>)
    ensures TruncatePixels in s <==> resetBoard
    ensures DeleteSnapshots in s <==> resetSnapshots
    ensures Commit in s <==> resetBoard || resetSnapshots
    ensures |s| == (if resetBoard then 1 else 0) + (if resetSnapshots then 3 else 0) + (if resetBoard || resetSnapshots then 1 else 0)
    ensures resetBoard ==> s[0] == TruncatePixels
    ensures resetSnapshots ==> (var k := if resetBoard then 1 else 0;
      s[k] == DeleteSnapshots && s[k + 1] == DeleteSnapshotPixels && s[k + 2] == ResetSnapshotCounter)
    ensures resetBoard || resetSnapshots ==> s[|s| - 1] == Commit
  {
    (if resetBoard then [TruncatePixels] else []) +
    (if resetSnapshots then [DeleteSnapshots, DeleteSnapshotPixels, ResetSnapshotCounter] else []) +
    (if resetBoard || resetSnapshots then [Commit] else [])
  }
}
