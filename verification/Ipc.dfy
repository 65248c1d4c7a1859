/** Kernel pipes: a fixed table of reference-counted ring buffers. */
module Ipc {
  import opened Bytes

  const MAX_PIPES := 8
  const PIPE_CAPACITY := 4096
  const USIZE_MAX := 0xffff_ffff_ffff_ffff

  datatype PipeError = TooMany | Invalid | WouldBlock | Broken

  datatype Pipe = Pipe(
    open: bool, readers: nat, writers: nat, head: nat, tail: nat, length: nat, buffer: seq<byte>)

  function EmptyPipe(): Pipe {
    Pipe(false, 0, 0, 0, 0, 0, Zeros(PIPE_CAPACITY))
  }

  /** `saturating_add(1)` and `saturating_sub(1)`. */
  function Up(n: nat): nat { if n < USIZE_MAX then n + 1 else n }
  function Down(n: nat): nat { if n > 0 then n - 1 else 0 }

  /** The ring is within bounds and its write position is where its contents end. */
  predicate RingOk(p: Pipe) {
    && |p.buffer| == PIPE_CAPACITY && p.length <= PIPE_CAPACITY
    && p.head < PIPE_CAPACITY && p.tail == (p.head + p.length) % PIPE_CAPACITY
  }

  /** The bytes waiting to be read, oldest first. */
  function Buffered(p: Pipe): (b: seq<byte>)
    requires RingOk(p)
    ensures |b| == p.length
  {
    seq(p.length, i requires 0 <= i < p.length => p.buffer[(p.head + i) % PIPE_CAPACITY])
  }

  /** One byte out. */
  lemma TakeOne(p: Pipe)
    requires RingOk(p) && p.length > 0
    ensures var q := p.(head := (p.head + 1) % PIPE_CAPACITY, length := p.length - 1);
      && RingOk(q) && Buffered(p) == [p.buffer[p.head]] + Buffered(q)
  {
    var q := p.(head := (p.head + 1) % PIPE_CAPACITY, length := p.length - 1);
    Wraps(p.head, 1, p.length - 1);
    var rest := [p.buffer[p.head]] + Buffered(q);
    forall i | 0 <= i < p.length
      ensures Buffered(p)[i] == rest[i]
    {
      if i > 0 {
        Wraps(p.head, 1, i - 1);
      }
    }
  }

  /** Wrapping around once or twice ends in the same place. */
  lemma Wraps(a: nat, b: nat, c: nat)
    ensures ((a + b) % PIPE_CAPACITY + c) % PIPE_CAPACITY == (a + (b + c)) % PIPE_CAPACITY
  {}

  /** One byte in. */
  lemma PutOne(p: Pipe, v: byte)
    requires RingOk(p) && p.length < PIPE_CAPACITY
    ensures var q := p.(buffer := p.buffer[p.tail := v], tail := (p.tail + 1) % PIPE_CAPACITY, length := p.length + 1);
      && RingOk(q) && Buffered(q) == Buffered(p) + [v]
  {
    var q := p.(buffer := p.buffer[p.tail := v], tail := (p.tail + 1) % PIPE_CAPACITY, length := p.length + 1);
    Wraps(p.head, p.length, 1);
    forall i | 0 <= i < q.length
      ensures Buffered(q)[i] == (Buffered(p) + [v])[i]
    {
      if i < p.length {
        Apart(p.head, i, p.length);
      }
    }
  }

  /** Two positions of a ring that are less than its capacity apart are different. */
  lemma Apart(head: nat, i: nat, j: nat)
    requires i < j < i + PIPE_CAPACITY
    ensures (head + i) % PIPE_CAPACITY != (head + j) % PIPE_CAPACITY
  {}

  class Pipes {
    var table: seq<Pipe>
    /** Over the lifetime of each pipe: every byte a write took, every byte a read gave out. */
    ghost var accepted: seq<seq<byte>>
    ghost var delivered: seq<seq<byte>>

    /** What went in is what came out followed by what is still in, for every open pipe; a closed one is blank. */
    ghost predicate Valid()
      reads this
    {
      && |table| == |accepted| == |delivered| == MAX_PIPES
      && (forall id | 0 <= id < MAX_PIPES :: RingOk(table[id]))
      && (forall id | 0 <= id < MAX_PIPES && table[id].open :: accepted[id] == delivered[id] + Buffered(table[id]))
      && (forall id | 0 <= id < MAX_PIPES && !table[id].open :: table[id] == EmptyPipe())
    }

    constructor ()
      ensures Valid() && forall id | 0 <= id < MAX_PIPES :: !table[id].open
    {
      table := seq(MAX_PIPES, _ => EmptyPipe());
      accepted := seq(MAX_PIPES, _ => []);
      delivered := seq(MAX_PIPES, _ => []);
    }

    predicate Open(id: nat)
      reads this
    {
      id < |table| && table[id].open
    }

    /** The first closed pipe, with one end of each kind. */
    method Create() returns (r: Result<nat, PipeError>)
      requires Valid()
      modifies this
      ensures Valid()
      ensures r.Ok? ==>
        && r.value < MAX_PIPES && !old(Open(r.value)) && (forall k | 0 <= k < r.value :: old(Open(k)))
        && table == old(table)[r.value := EmptyPipe().(open := true, readers := 1, writers := 1)]
        && accepted == old(accepted)[r.value := []] && delivered == old(delivered)[r.value := []]
      ensures r.Err? ==>
        && r.error == TooMany && (forall k | 0 <= k < MAX_PIPES :: old(Open(k)))
        && table == old(table) && accepted == old(accepted) && delivered == old(delivered)
    {
      for id := 0 to MAX_PIPES
        invariant Valid() && table == old(table) && accepted == old(accepted) && delivered == old(delivered)
        invariant forall k | 0 <= k < id :: Open(k)
      {
        if !table[id].open {
          table := table[id := EmptyPipe().(open := true, readers := 1, writers := 1)];
          accepted, delivered := accepted[id := []], delivered[id := []];
          return Ok(id);
        }
      }
      return Err(TooMany);
    }

    /** One more read end. */
    method AddReader(id: nat) returns (r: Result<(), PipeError>)
      requires Valid()
      modifies this`table
      ensures Valid()
      ensures r == if old(Open(id)) then Ok(()) else Err(Invalid)
      ensures table == if r.Ok? then old(table)[id := old(table)[id].(readers := Up(old(table)[id].readers))] else old(table)
    {
      if !Open(id) {
        return Err(Invalid);
      }
      table := table[id := table[id].(readers := Up(table[id].readers))];
      return Ok(());
    }

    /** One more write end. */
    method AddWriter(id: nat) returns (r: Result<(), PipeError>)
      requires Valid()
      modifies this`table
      ensures Valid()
      ensures r == if old(Open(id)) then Ok(()) else Err(Invalid)
      ensures table == if r.Ok? then old(table)[id := old(table)[id].(writers := Up(old(table)[id].writers))] else old(table)
    {
      if !Open(id) {
        return Err(Invalid);
      }
      table := table[id := table[id].(writers := Up(table[id].writers))];
      return Ok(());
    }

    /** One read end fewer; the last end of all recycles the pipe. */
    method CloseReader(id: nat)
      requires Valid()
      modifies this`table
      ensures Valid()
      ensures table == if old(Open(id)) then old(table)[id := WithoutReader(old(table)[id])] else old(table)
    {
      if Open(id) {
        table := table[id := table[id].(readers := Down(table[id].readers))];
        if table[id].readers == 0 && table[id].writers == 0 {
          table := table[id := EmptyPipe()];
        }
      }
    }

    /** One write end fewer; the last end of all recycles the pipe. */
    method CloseWriter(id: nat)
      requires Valid()
      modifies this`table
      ensures Valid()
      ensures table == if old(Open(id)) then old(table)[id := WithoutWriter(old(table)[id])] else old(table)
    {
      if Open(id) {
        table := table[id := table[id].(writers := Down(table[id].writers))];
        if table[id].readers == 0 && table[id].writers == 0 {
          table := table[id := EmptyPipe()];
        }
      }
    }

    /** The oldest bytes, in order, as many as there are and fit; 0 is the end of the stream, not an empty moment. */
    method Read(id: nat, output: array<byte>) returns (r: Result<nat, PipeError>)
      requires Valid()
      modifies this, output
      ensures Valid() && accepted == old(accepted)
      ensures r.Err? ==> table == old(table) && delivered == old(delivered) && output[..] == old(output[..])
      ensures !old(Open(id)) ==> r == Err(Invalid)
      ensures old(Open(id)) ==>
        && SameEnds(old(table), table)
        && (r == Err(WouldBlock) <==> old(table)[id].length == 0 && old(table)[id].writers > 0)
        && (r.Err? ==> r.error == WouldBlock)
        && (r.Ok? ==>
          && r.value == Min(output.Length, old(table)[id].length)
          && Appended(old(delivered), delivered, id, output[..r.value])
          && output[..] == old(Buffered(table[id]))[..r.value] + old(output[..])[r.value..]
          && Buffered(table[id]) == old(Buffered(table[id]))[r.value..])
    {
      if !Open(id) {
        return Err(Invalid);
      }
      if table[id].length == 0 {
        if table[id].writers == 0 {
          assert delivered[id] + output[..0] == delivered[id];
          return Ok(0);
        }
        return Err(WouldBlock);
      }
      ghost var was := Buffered(table[id]);
      var length: nat := Min(output.Length, table[id].length);
      ReadLoop(id, output, length);
      return Ok(length);
    }

    /** The oldest byte leaves the ring. */
    method Pop(id: nat) returns (v: byte)
      requires Valid() && Open(id) && table[id].length > 0
      modifies this
      ensures Valid() && accepted == old(accepted) && SameEnds(old(table), table)
      ensures old(Buffered(table[id])) == [v] + Buffered(table[id])
      ensures Appended(old(delivered), delivered, id, [v])
    {
      var pipe := table[id];
      TakeOne(pipe);
      hide Buffered;
      v := pipe.buffer[pipe.head];
      var after := pipe.(head := (pipe.head + 1) % PIPE_CAPACITY, length := pipe.length - 1);
      assert delivered[id] + Buffered(pipe) == delivered[id] + [v] + Buffered(after);
      table := table[id := after];
      delivered := delivered[id := delivered[id] + [v]];
    }

    method ReadLoop(id: nat, output: array<byte>, length: nat)
      requires Valid() && Open(id) && length <= output.Length && length <= table[id].length
      modifies this, output
      ensures Valid() && accepted == old(accepted) && SameEnds(old(table), table)
      ensures Appended(old(delivered), delivered, id, output[..length])
      ensures output[..] == old(Buffered(table[id]))[..length] + old(output[..])[length..]
      ensures Buffered(table[id]) == old(Buffered(table[id]))[length..]
    {
      hide Buffered, RingOk;
      ghost var was, out := Buffered(table[id]), output[..];
      assert was[0..] == was && was[..0] + out[0..] == out;
      AppendedNothing(delivered, id);
      for offset := 0 to length
        invariant Valid() && Open(id) && accepted == old(accepted) && SameEnds(old(table), table)
        invariant Buffered(table[id]) == was[offset..]
        invariant Appended(old(delivered), delivered, id, was[..offset])
        invariant output[..] == was[..offset] + out[offset..]
      {
        ghost var before := delivered;
        var v := Pop(id);
        assert v == was[offset];
        Overwritten(was, out, offset);
        output[offset] := v;
        assert was[..offset] + [v] == was[..offset + 1];
        AppendedMore(old(delivered), before, delivered, id, was[..offset], [v]);
      }
      assert output[..length] == was[..length];
    }

    /** As much of the input as fits, behind what is there. */
    method Write(id: nat, input: seq<byte>) returns (r: Result<nat, PipeError>)
      requires Valid()
      modifies this
      ensures Valid() && delivered == old(delivered)
      ensures r.Err? ==> table == old(table) && accepted == old(accepted)
      ensures !old(Open(id)) ==> r == Err(Invalid)
      ensures old(Open(id)) ==>
        && SameEnds(old(table), table)
        && (r == Err(Broken) <==> old(table)[id].readers == 0)
        && (r == Err(WouldBlock) <==>
            old(table)[id].readers > 0 && input != [] && old(table)[id].length == PIPE_CAPACITY)
        && (r.Err? ==> r.error == Broken || r.error == WouldBlock)
        && (r.Ok? ==>
          && r.value == Min(|input|, PIPE_CAPACITY - old(table)[id].length)
          && Appended(old(accepted), accepted, id, input[..r.value])
          && Buffered(table[id]) == old(Buffered(table[id])) + input[..r.value])
    {
      if !Open(id) {
        return Err(Invalid);
      }
      if table[id].readers == 0 {
        return Err(Broken);
      }
      if input == [] {
        assert accepted[id] + input[..0] == accepted[id];
        return Ok(0);
      }
      if table[id].length == PIPE_CAPACITY {
        return Err(WouldBlock);
      }
      var space := PIPE_CAPACITY - table[id].length;
      var length: nat := Min(|input|, space);
      WriteLoop(id, input, length);
      return Ok(length);
    }

    /** A byte joins the ring. */
    method Push(id: nat, v: byte)
      requires Valid() && Open(id) && table[id].length < PIPE_CAPACITY
      modifies this
      ensures Valid() && delivered == old(delivered) && SameEnds(old(table), table)
      ensures Buffered(table[id]) == old(Buffered(table[id])) + [v]
      ensures Appended(old(accepted), accepted, id, [v])
    {
      var pipe := table[id];
      PutOne(pipe, v);
      hide Buffered;
      var after := pipe.(buffer := pipe.buffer[pipe.tail := v], tail := (pipe.tail + 1) % PIPE_CAPACITY,
                         length := pipe.length + 1);
      assert delivered[id] + (Buffered(pipe) + [v]) == delivered[id] + Buffered(pipe) + [v];
      table := table[id := after];
      accepted := accepted[id := accepted[id] + [v]];
    }

    method WriteLoop(id: nat, input: seq<byte>, length: nat)
      requires Valid() && Open(id) && length <= |input| && table[id].length + length <= PIPE_CAPACITY
      modifies this
      ensures Valid() && delivered == old(delivered) && SameEnds(old(table), table)
      ensures Appended(old(accepted), accepted, id, input[..length])
      ensures Buffered(table[id]) == old(Buffered(table[id])) + input[..length]
    {
      hide Buffered, RingOk;
      ghost var was := Buffered(table[id]);
      assert was + input[..0] == was;
      AppendedNothing(accepted, id);
      for offset := 0 to length
        invariant Valid() && Open(id) && delivered == old(delivered) && SameEnds(old(table), table)
        invariant Buffered(table[id]) == was + input[..offset]
        invariant Appended(old(accepted), accepted, id, input[..offset])
      {
        ghost var before := accepted;
        Push(id, input[offset]);
        assert input[..offset] + [input[offset]] == input[..offset + 1];
        AppendedMore(old(accepted), before, accepted, id, input[..offset], [input[offset]]);
        assert was + input[..offset] + [input[offset]] == was + input[..offset + 1];
      }
    }
  }

  /** `bytes` were appended to the history of pipe `id` and to no other. */
  ghost predicate Appended(a: seq<seq<byte>>, b: seq<seq<byte>>, id: nat, bytes: seq<byte>) {
    && |a| == |b| && id < |a| && b[id] == a[id] + bytes
    && forall k | 0 <= k < |a| && k != id :: b[k] == a[k]
  }

  /** One more element of `out` is that of `was`. */
  lemma Overwritten(was: seq<byte>, out: seq<byte>, k: nat)
    requires k < |was| && k < |out|
    ensures (was[..k] + out[k..])[k := was[k]] == was[..k + 1] + out[k + 1..]
  {}

  lemma AppendedNothing(a: seq<seq<byte>>, id: nat)
    requires id < |a|
    ensures forall b: seq<byte> :: Appended(a, a, id, b[..0])
  {
    assert a[id] + [] == a[id];
  }

  lemma AppendedMore(a: seq<seq<byte>>, b: seq<seq<byte>>, c: seq<seq<byte>>, id: nat, x: seq<byte>, y: seq<byte>)
    requires Appended(a, b, id, x) && Appended(b, c, id, y)
    ensures Appended(a, c, id, x + y)
  {
    assert a[id] + x + y == a[id] + (x + y);
  }

  /** A pipe with one read end fewer; the last end to go recycles it. */
  function WithoutReader(p: Pipe): Pipe {
    if Down(p.readers) == 0 && p.writers == 0 then EmptyPipe() else p.(readers := Down(p.readers))
  }

  function WithoutWriter(p: Pipe): Pipe {
    if p.readers == 0 && Down(p.writers) == 0 then EmptyPipe() else p.(writers := Down(p.writers))
  }

  /** Moving bytes opens and closes nothing and counts no ends. */
  ghost predicate SameEnds(a: seq<Pipe>, b: seq<Pipe>) {
    |a| == |b| && forall k | 0 <= k < |a| ::
      a[k].open == b[k].open && a[k].readers == b[k].readers && a[k].writers == b[k].writers
  }
}
