/**
 * The change drain and fan-out of backend/routers/router_broadcast.py, as
 * sequential steps: subscriber queues registered in one set, a broadcast
 * that puts a message on each, the drain of the board's change log, and the
 * stream step that takes one message off its queue.
 */
module Broadcast {
  import opened Common
  import opened Numerals
  import opened ColorPalettes
  import opened Board

  /** The retry hint, in milliseconds, that every update event carries. */
  const RetryTimeout: nat := 15000

  /** `json.dumps` of one change: asdict of the pixel, with its colour nested. */
  function EncodePixel(p: Pixel): string
  {
    "{\"x\": " + DecimalString(p.x) + ", \"y\": " + DecimalString(p.y) +
    ", \"color\": {\"hex\": " + DecimalString(p.color.hex) +
    ", \"color_id\": " + DecimalString(p.color.colorId) + "}}"
  }

  function JoinPixels(ps: seq<Pixel>): string
  {
    if ps == [] then ""
    else if |ps| == 1 then EncodePixel(ps[0])
    else EncodePixel(ps[0]) + ", " + JoinPixels(ps[1..])
  }

  /** `json.dumps(changes)`: the list of changes in log order, as one JSON array. */
  function EncodeChanges(changes: seq<Pixel>): (s: string)
    ensures |s| >= 2 && s[0] == '[' && s[|s| - 1] == ']'
    ensures s == "[]" <==> changes == []
  {
    var body := JoinPixels(changes);
    assert changes != [] ==> |body| > 0 && body[0] == '{' by {
      if changes != [] {
        assert EncodePixel(changes[0])[0] == '{';
      }
    }
    "[" + body + "]"
  }

  /** What one turn of a stream's loop yields. */
  datatype StreamStep =
    | Blocked               // queue.get() waits: nothing is queued
    | Skipped               // falsy data is taken but not sent
    | Update(data: string)  // an "update" event carrying the data

  /**
   * The module-level subscriber set `event_queues["all"]` and the queues it
   * can reach. A queue is named by a number standing for the queue object's
   * identity; a stream keeps its queue after the queue is discarded.
   */
  class Hub {
    var registered: set<nat>
    var pending: map<nat, seq<string>>
    var nextQueue: nat

    ghost predicate Valid()
      reads this
    {
      registered <= pending.Keys && forall q :: q in pending ==> q < nextQueue
    }

    constructor ()
      ensures Valid() && registered == {} && pending == map[]
    {
      registered := {};
      pending := map[];
      nextQueue := 0;
    }

    /** Stream setup: a new unbounded queue, empty, added to the set. */
    method Subscribe() returns (q: nat)
      requires Valid()
      modifies this
      ensures Valid()
      ensures q !in old(pending) && pending == old(pending)[q := []]
      ensures registered == old(registered) + {q}
    {
      q := nextQueue;
      nextQueue := nextQueue + 1;
      pending := pending[q := []];
      registered := registered + {q};
    }

    /** Stream teardown: `discard`, which leaves the set alone when q is not in it. */
    method Discard(q: nat)
      requires Valid()
      modifies this
      ensures Valid()
      ensures registered == old(registered) - {q} && pending == old(pending)
      ensures q !in old(registered) ==> registered == old(registered)
    {
      registered := registered - {q};
    }

    /** `broadcast_to_all`: puts data once on every registered queue and on no other. */
    method BroadcastToAll(data: string)
      requires Valid()
      modifies this
      ensures Valid()
      ensures registered == old(registered) && pending.Keys == old(pending).Keys
      ensures forall q :: q in registered ==> pending[q] == old(pending)[q] + [data]
      ensures forall q :: q in pending && q !in registered ==> pending[q] == old(pending)[q]
    {
      var todo := registered;
      while todo != {}
        invariant todo <= registered && Valid()
        invariant registered == old(registered) && pending.Keys == old(pending).Keys
        invariant forall q :: q in registered - todo ==> pending[q] == old(pending)[q] + [data]
        invariant forall q :: q in pending && (q in todo || q !in registered) ==> pending[q] == old(pending)[q]
        decreases |todo|
      {
        var q :| q in todo;
        pending := pending[q := pending[q] + [data]];
        todo := todo - {q};
      }
    }

    /** One turn of a stream: take the oldest message, emit it as an update when it is non-empty. */
    method StreamNext(q: nat) returns (step: StreamStep)
      requires Valid() && q in pending
      modifies this
      ensures Valid() && registered == old(registered)
      ensures old(pending)[q] == [] ==> step == Blocked && pending == old(pending)
      ensures old(pending)[q] != [] ==>
        pending == old(pending)[q := old(pending)[q][1..]] &&
        step == (if old(pending)[q][0] == "" then Skipped else Update(old(pending)[q][0]))
    {
      var queue := pending[q];
      if queue == [] {
        return Blocked;
      }
      pending := pending[q := queue[1..]];
      step := if queue[0] == "" then Skipped else Update(queue[0]);
    }
  }

  /**
   * `new_messages`: drains the board's change log when it is non-empty and
   * returns its serialisation; an empty log is left alone.
   */
  method NewMessages(board: PixelBoard) returns (hasChanges: bool, data: string)
    requires board.Valid()
    modifies board
    ensures board.Valid()
    ensures hasChanges <==> old(board.changes) != []
    ensures !hasChanges ==> data == "" && board.changes == old(board.changes)
    ensures hasChanges ==> data == EncodeChanges(old(board.changes)) && board.changes == []
  {
    var changes := board.changes;
    if |changes| > 0 {
      board.ClearChanges();
      return |changes| > 0, EncodeChanges(changes);
    }
    return false, "";
  }

  /**
   * One turn of `periodic_broadcast`: drain, then broadcast only when the
   * drain had changes. Every change logged since the last drain lands in the
   * one message every registered queue receives; an empty drain sends nothing.
   */
  method CadenceStep(board: PixelBoard, hub: Hub)
    requires board.Valid() && hub.Valid()
    modifies board, hub
    ensures board.Valid() && hub.Valid()
    ensures board.changes == [] && board.cells[..] == old(board.cells[..])
    ensures hub.registered == old(hub.registered) && hub.pending.Keys == old(hub.pending).Keys
    ensures old(board.changes) == [] ==> hub.pending == old(hub.pending)
    ensures old(board.changes) != [] ==>
      (forall q :: q in hub.registered ==> hub.pending[q] == old(hub.pending)[q] + [EncodeChanges(old(board.changes))]) &&
      (forall q :: q in hub.pending && q !in hub.registered ==> hub.pending[q] == old(hub.pending)[q])
  {
    var hasChanges, data := NewMessages(board);
    if hasChanges {
      hub.BroadcastToAll(data);
    }
  }

  /** A broadcast message is never the empty string, so each one becomes an update event. */
  lemma BroadcastIsEmitted(changes: seq<Pixel>)
    ensures EncodeChanges(changes) != ""
  {
    assert |EncodeChanges(changes)| >= 2;
  }
}
