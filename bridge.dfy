/**
 * The raw-byte bridge: every attached port (a serial line or a TCP client) gets an id and a
 * registered writer, and every chunk of bytes read from one port is written to all the other
 * ports' writers.
 *
 * A writer is modelled by the bytes written to it so far; the state shared under the mutex is
 * the next port id and the table of writers. Whether a write fails is a parameter: `failing`
 * is the set of writers whose write of the current chunk fails.
 */
module Bridge {
  import opened Bytes

  type PortId = nat

  /** The size of the read buffer of `process`. */
  const READ_BUFFER_SIZE: nat := 256

  /** The writers after one chunk from port `from` is written to all the others; a failing
      write leaves that writer as it was. */
  function Delivered(w: map<PortId, seq<Byte>>, from: PortId, chunk: seq<Byte>, failing: set<PortId>)
    : (r: map<PortId, seq<Byte>>)
    ensures r.Keys == w.Keys
  {
    map k | k in w :: if k != from && k !in failing then w[k] + chunk else w[k]
  }

  /** The writers after `process` for port `id` has handled `chunks`, each read's failing
      writers alongside it: a 0-byte read ends the loop and unregisters the port's writer. */
  function AfterProcess(w: map<PortId, seq<Byte>>, id: PortId, chunks: seq<seq<Byte>>,
                        failing: seq<set<PortId>>): (r: map<PortId, seq<Byte>>)
    requires |failing| == |chunks|
    ensures r.Keys == w.Keys || r.Keys == w.Keys - {id}
    decreases |chunks|
  {
    if chunks == [] then w
    else if chunks[0] == [] then w - {id}
    else AfterProcess(Delivered(w, id, chunks[0], failing[0]), id, chunks[1..], failing[1..])
  }

  /** Whether the port's stream ends within `chunks`. */
  predicate Closes(chunks: seq<seq<Byte>>) {
    exists i :: 0 <= i < |chunks| && chunks[i] == []
  }

  /** The bytes writer `k` receives from `chunks`: the chunks before the end of the stream whose
      write to `k` does not fail, in order. */
  function Received(k: PortId, chunks: seq<seq<Byte>>, failing: seq<set<PortId>>): seq<Byte>
    requires |failing| == |chunks|
    decreases |chunks|
  {
    if chunks == [] || chunks[0] == [] then []
    else (if k !in failing[0] then chunks[0] else []) + Received(k, chunks[1..], failing[1..])
  }

  /** All the bytes read before the end of the stream, in order. */
  function Flatten(chunks: seq<seq<Byte>>): seq<Byte>
    decreases |chunks|
  {
    if chunks == [] || chunks[0] == [] then [] else chunks[0] + Flatten(chunks[1..])
  }

  class SharedState {
    var nextPortId: PortId
    /** The registered writers, each with the bytes written to it so far. */
    var writers: map<PortId, seq<Byte>>

    /** Every registered id was handed out before. */
    ghost predicate Valid()
      reads this
    {
      forall k :: k in writers ==> k < nextPortId
    }

    /** `SharedState::new`. */
    constructor ()
      ensures Valid() && nextPortId == 0 && writers == map[]
    {
      nextPortId := 0;
      writers := map[];
    }

    /** `attach_port`: the port gets the current id, which is then bumped, and its writer is
        registered. */
    method AttachPort() returns (id: PortId)
      requires Valid()
      modifies this
      ensures Valid()
      ensures id == old(nextPortId) && id !in old(writers)
      ensures nextPortId == old(nextPortId) + 1
      ensures writers == old(writers)[id := []]
    {
      id := nextPortId;
      nextPortId := nextPortId + 1;
      writers := writers[id := []];
    }

    /** One chunk read from port `id`, written to every registered writer but its own. */
    method Fanout(id: PortId, chunk: seq<Byte>, failing: set<PortId>)
      modifies this
      ensures writers == Delivered(old(writers), id, chunk, failing)
      ensures nextPortId == old(nextPortId)
    {
      ghost var start := writers;
      var todo := writers.Keys;
      while todo != {}
        invariant todo <= start.Keys && writers.Keys == start.Keys
        invariant nextPortId == old(nextPortId)
        invariant forall k :: k in start && k !in todo ==> writers[k] == Delivered(start, id, chunk, failing)[k]
        invariant forall k :: k in todo ==> writers[k] == start[k]
        decreases todo
      {
        var k :| k in todo;
        if k != id && k !in failing {
          writers := writers[k := writers[k] + chunk];
        }
        todo := todo - {k};
      }
    }

    /** `process`: the read loop of port `id`, until a read returns no bytes. */
    method Process(id: PortId, chunks: seq<seq<Byte>>, failing: seq<set<PortId>>)
      requires |failing| == |chunks|
      requires forall i :: 0 <= i < |chunks| ==> |chunks[i]| <= READ_BUFFER_SIZE
      requires Valid()
      modifies this
      ensures Valid()
      ensures writers == AfterProcess(old(writers), id, chunks, failing)
      ensures nextPortId == old(nextPortId)
    {
      var i := 0;
      assert chunks[0..] == chunks && failing[0..] == failing;
      while i < |chunks|
        invariant 0 <= i <= |chunks| && Valid()
        invariant AfterProcess(old(writers), id, chunks, failing) == AfterProcess(writers, id, chunks[i..], failing[i..])
        invariant nextPortId == old(nextPortId)
        decreases |chunks| - i
      {
        var chunk := chunks[i];
        if |chunk| == 0 {
          writers := writers - {id};
          return;
        }
        Fanout(id, chunk, failing[i]);
        assert chunks[i..][1..] == chunks[i + 1..] && failing[i..][1..] == failing[i + 1..];
        i := i + 1;
      }
    }
  }

  // ---------------------------------------------------------------------------------------
  // Properties

  lemma ClosesTail(chunks: seq<seq<Byte>>)
    requires chunks != [] && chunks[0] != []
    ensures Closes(chunks) <==> Closes(chunks[1..])
  {
    if Closes(chunks) {
      var i :| 0 <= i < |chunks| && chunks[i] == [];
      assert chunks[1..][i - 1] == [];
    }
    if Closes(chunks[1..]) {
      var i :| 0 <= i < |chunks[1..]| && chunks[1..][i] == [];
      assert chunks[i + 1] == [];
    }
  }

  /** At the end of the stream the port's own writer, and no other, is unregistered; until
      then the table keeps its ports. */
  lemma {:induction false} ProcessKeys(w: map<PortId, seq<Byte>>, id: PortId, chunks: seq<seq<Byte>>,
                                       failing: seq<set<PortId>>)
    requires |failing| == |chunks|
    ensures AfterProcess(w, id, chunks, failing).Keys == if Closes(chunks) then w.Keys - {id} else w.Keys
    decreases |chunks|
  {
    if chunks != [] {
      if chunks[0] == [] {
        assert Closes(chunks);
      } else {
        ProcessKeys(Delivered(w, id, chunks[0], failing[0]), id, chunks[1..], failing[1..]);
        ClosesTail(chunks);
      }
    }
  }

  /** Every other registered writer receives the port's chunks unchanged and in order, except
      the ones whose write to it failed. */
  lemma {:induction false} ProcessDelivers(w: map<PortId, seq<Byte>>, id: PortId, chunks: seq<seq<Byte>>,
                                           failing: seq<set<PortId>>, k: PortId)
    requires |failing| == |chunks|
    requires k in w && k != id
    ensures k in AfterProcess(w, id, chunks, failing)
    ensures AfterProcess(w, id, chunks, failing)[k] == w[k] + Received(k, chunks, failing)
    decreases |chunks|
  {
    if chunks == [] {
      assert w[k] + [] == w[k];
    } else if chunks[0] == [] {
      assert w[k] + [] == w[k];
    } else {
      var w' := Delivered(w, id, chunks[0], failing[0]);
      ProcessDelivers(w', id, chunks[1..], failing[1..], k);
      assert w'[k] == w[k] + (if k !in failing[0] then chunks[0] else []);
    }
  }

  /** The port's own writer never receives its own chunks. */
  lemma {:induction false} ProcessSkipsOwnWriter(w: map<PortId, seq<Byte>>, id: PortId, chunks: seq<seq<Byte>>,
                                                 failing: seq<set<PortId>>)
    requires |failing| == |chunks|
    requires id in w && !Closes(chunks)
    ensures id in AfterProcess(w, id, chunks, failing)
    ensures AfterProcess(w, id, chunks, failing)[id] == w[id]
    decreases |chunks|
  {
    if chunks != [] {
      if chunks[0] == [] {
        assert Closes(chunks);
      } else {
        ClosesTail(chunks);
        ProcessSkipsOwnWriter(Delivered(w, id, chunks[0], failing[0]), id, chunks[1..], failing[1..]);
      }
    }
  }

  /** A writer whose writes never fail receives exactly the bytes read from the port before
      the end of the stream. */
  lemma {:induction false} NoFailureReceivesAll(k: PortId, chunks: seq<seq<Byte>>, failing: seq<set<PortId>>)
    requires |failing| == |chunks|
    requires forall i :: 0 <= i < |failing| ==> k !in failing[i]
    ensures Received(k, chunks, failing) == Flatten(chunks)
    decreases |chunks|
  {
    if chunks != [] && chunks[0] != [] {
      NoFailureReceivesAll(k, chunks[1..], failing[1..]);
    }
  }
}
