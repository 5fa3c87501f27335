/** Programs over the agent's channel: what they write, and what reading gives for what the devices give. */
module SerialProgram {
  import opened Sequences

  /** One call on the channel. */
  datatype Command = Send(payload: seq<byte>) | Ready | Receive(n: nat) | Reset

  // ----- Writing -----

  function PayloadOf(command: Command): seq<byte> { if command.Send? then command.payload else [] }

  function Payloads(script: seq<Command>): seq<byte> {
    if script == [] then []
    else Payloads(script[..|script| - 1]) + PayloadOf(script[|script| - 1])
  }

  // ----- Reading -----

  function Taken(n: nat, buffer: seq<byte>): (k: nat)
    ensures k <= |buffer|
  {
    if n < |buffer| then n else |buffer|
  }

  /** What one call returns of the bytes that are buffered. */
  function ResultOf(command: Command, buffer: seq<byte>): seq<byte> {
    if command.Receive? then buffer[..Taken(command.n, buffer)] else []
  }

  /** What one call leaves in the buffer when the devices give these bytes during it. */
  function BufferStep(command: Command, buffer: seq<byte>, given: seq<byte>): seq<byte> {
    match command
    case Send(_) => buffer
    case Ready => buffer + given
    case Receive(n) => buffer[Taken(n, buffer)..]
    case Reset => []
  }

  function BufferAfter(script: seq<Command>, given: seq<seq<byte>>, buffer: seq<byte>): seq<byte>
    requires |script| == |given|
  {
    if script == [] then buffer
    else
      var n := |script| - 1;
      BufferStep(script[n], BufferAfter(script[..n], given[..n], buffer), given[n])
  }

  /**
  These are the results of the calls when the devices give these bytes during each of them; only a poll
  makes them give any.
  */
  ghost predicate Reads(script: seq<Command>, given: seq<seq<byte>>, buffer: seq<byte>, results: seq<seq<byte>>) {
    && |script| == |given| == |results|
    && (forall i :: 0 <= i < |script| && !script[i].Ready? ==> given[i] == [])
    && forall i :: 0 <= i < |script| ==>
      results[i] == ResultOf(script[i], BufferAfter(script[..i], given[..i], buffer))
  }

  lemma ReadsNil(buffer: seq<byte>)
    ensures Reads([], [], buffer, []) && BufferAfter([], [], buffer) == buffer
    ensures Payloads([]) == [] && Flatten<byte>([]) == []
  {
  }

  lemma ReadsSnoc(
    script: seq<Command>, given: seq<seq<byte>>, buffer: seq<byte>, results: seq<seq<byte>>, command: Command,
    more: seq<byte>
  )
    requires Reads(script, given, buffer, results)
    requires !command.Ready? ==> more == []
    ensures
      var before := BufferAfter(script, given, buffer);
      && Reads(script + [command], given + [more], buffer, results + [ResultOf(command, before)])
      && BufferAfter(script + [command], given + [more], buffer) == BufferStep(command, before, more)
    ensures Payloads(script + [command]) == Payloads(script) + PayloadOf(command)
    ensures Flatten(given + [more]) == Flatten(given) + more
  {
    hide ResultOf, BufferStep;
    var longer, both := script + [command], given + [more];
    assert longer[..|script|] == script && both[..|given|] == given;
    forall i | 0 <= i < |script|
      ensures longer[..i] == script[..i] && both[..i] == given[..i]
    {
    }
    FlattenSnoc(given, more);
  }

  lemma ReadsPrefix(
    script: seq<Command>, given: seq<seq<byte>>, buffer: seq<byte>, results: seq<seq<byte>>, n: nat
  )
    requires Reads(script, given, buffer, results) && n <= |script|
    ensures Reads(script[..n], given[..n], buffer, results[..n])
  {
    hide ResultOf, BufferAfter;
    forall i | 0 <= i < n
      ensures script[..n][..i] == script[..i] && given[..n][..i] == given[..i]
    {
    }
  }

  /**
  No byte is lost, doubled or reordered: from any point on, what was buffered and what the devices gave
  since is what recv returned since and what is buffered now, as long as nothing was reset.
  */
  lemma {:induction false} NoByteLost(
    script: seq<Command>, given: seq<seq<byte>>, buffer: seq<byte>, results: seq<seq<byte>>, from: nat
  )
    requires Reads(script, given, buffer, results) && from <= |script|
    requires forall i :: from <= i < |script| ==> !script[i].Reset?
    ensures BufferAfter(script[..from], given[..from], buffer) + Flatten(given[from..])
      == Flatten(results[from..]) + BufferAfter(script, given, buffer)
    decreases |script|
  {
    hide *;
    FlattenNil<byte>();
    ShortReads(script, given, buffer, results);
    var last := BufferAfter(script, given, buffer);
    if from == |script| {
      assert script[..from] == script && given[..from] == given && given[from..] == [] && results[from..] == [];
      assert last + [] == [] + last;
    } else {
      var n := |script| - 1;
      ReadsPrefix(script, given, buffer, results, n);
      var s, g, r := script[..n], given[..n], results[..n];
      NoByteLost(s, g, buffer, r, from);
      assert s[..from] == script[..from] && g[..from] == given[..from];
      assert given[from..] == g[from..] + [given[n]] && results[from..] == r[from..] + [results[n]];
      FlattenSnoc(g[from..], given[n]);
      FlattenSnoc(r[from..], results[n]);
      LastStep(script, given, buffer, results);
      Regroup(BufferAfter(script[..from], given[..from], buffer), Flatten(g[from..]), given[n],
        Flatten(r[from..]), BufferAfter(s, g, buffer), results[n], last);
    }
  }

  lemma Regroup(start: seq<byte>, given: seq<byte>, more: seq<byte>, results: seq<byte>, before: seq<byte>,
                result: seq<byte>, last: seq<byte>)
    requires start + given == results + before && before + more == result + last
    ensures start + (given + more) == results + result + last
  {
    assert start + (given + more) == start + given + more;
    assert results + before + more == results + (before + more);
    assert results + (result + last) == results + result + last;
  }

  lemma ShortReads(script: seq<Command>, given: seq<seq<byte>>, buffer: seq<byte>, results: seq<seq<byte>>)
    requires Reads(script, given, buffer, results)
    ensures |script| == |given| == |results|
  {
  }

  /** One call that is no reset passes every byte on. */
  lemma LastStep(script: seq<Command>, given: seq<seq<byte>>, buffer: seq<byte>, results: seq<seq<byte>>)
    requires Reads(script, given, buffer, results) && script != [] && !script[|script| - 1].Reset?
    ensures |script| == |given| == |results|
    ensures
      var n := |script| - 1;
      BufferAfter(script[..n], given[..n], buffer) + given[n] == results[n] + BufferAfter(script, given, buffer)
  {
    var n := |script| - 1;
    var before := BufferAfter(script[..n], given[..n], buffer);
    assert script[n].Receive? ==>
      before[..Taken(script[n].n, before)] + before[Taken(script[n].n, before)..] == before;
    assert before + [] == before && [] + before == before && [] + (before + given[n]) == before + given[n];
  }
}
