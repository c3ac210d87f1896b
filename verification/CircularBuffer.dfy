/** The ring buffer with a hidden prefix (pagers-common/circularbuffer.cpp). Offsets count from the
    start of the visible buffer, so the hidden area has the offsets -hidden..-1; a byte is a char. */
module CircularBuffer {
  import opened Memory

  function Min(a: int, b: int): int
  {
    if a <= b then a else b
  }

  /** The remainder of C: the sign follows the dividend. */
  function Remainder(a: int, b: int): int
    requires b > 0
  {
    if a >= 0 then a % b else -((-a) % b)
  }

  /** An offset moved forward: past the end it starts over, and a negative one stays negative until
      it has crossed the start. */
  function Advanced(size: int, at: int, bytes: int): int
  {
    if at + bytes < size then at + bytes else at + bytes - size
  }

  lemma RemainderAdvances(size: int, at: int, bytes: int)
    requires 0 < size && -size < at < size && 0 <= bytes && at + bytes < 2 * size
    ensures Remainder(at + bytes, size) == Advanced(size, at, bytes)
  {
    var sum := at + bytes;
    if sum < 0 {
      SmallRemainder(-sum, size);
    } else if sum < size {
      SmallRemainder(sum, size);
    } else {
      SmallRemainder(sum - size, size);
      assert sum % size == (sum - size) % size;
    }
  }

  lemma AnyRemainder(a: nat, size: int)
    requires 0 < size
    ensures Remainder(a, size) == a % size
  {
  }

  lemma SmallRemainder(a: nat, size: int)
    requires a < size
    ensures a % size == a
  {
  }

  function DataLeft(size: int, read_at: int, write_at: int): int
  {
    if write_at < read_at then size - read_at + write_at else write_at - read_at
  }

  function DataLeftContinuous(size: int, read_at: int, write_at: int): int
  {
    Min(DataLeft(size, read_at, write_at), size - read_at)
  }

  function SpaceLeft(size: int, read_at: int, write_at: int): int
  {
    size - DataLeft(size, read_at, write_at)
  }

  function SpaceLeftContinuous(size: int, read_at: int, write_at: int): int
  {
    Min(SpaceLeft(size, read_at, write_at), size - write_at)
  }

  // ----- the buffer as a value

  datatype Ring = Ring(hidden: nat, size: nat, memory: seq<char>, read_at: int, write_at: int)

  predicate InRange(r: Ring)
  {
    && 0 < r.size && |r.memory| == r.hidden + r.size
    && 0 <= r.hidden + r.read_at && r.read_at < r.size && 0 < r.size + r.read_at
    && 0 <= r.write_at < r.size && r.write_at - r.read_at <= r.size
  }

  /** The bytes held, oldest first. */
  function Contents(r: Ring): (held: seq<char>)
    requires InRange(r)
    ensures |held| == DataLeft(r.size, r.read_at, r.write_at)
  {
    if r.write_at < r.read_at then
      r.memory[r.hidden + r.read_at..] + r.memory[r.hidden..r.hidden + r.write_at]
    else
      r.memory[r.hidden + r.read_at..r.hidden + r.write_at]
  }

  /** How much of data one copy takes: as much as fits before the end and before unread bytes. */
  function Taken(r: Ring, data: seq<char>): (n: nat)
    requires InRange(r)
    ensures n <= |data| && r.write_at + n <= r.size
  {
    Min(|data|, SpaceLeftContinuous(r.size, r.read_at, r.write_at))
  }

  function Stored(r: Ring, data: seq<char>): (s: Ring)
    requires InRange(r)
    ensures InRange(s)
  {
    var n := Taken(r, data);
    r.(memory := Splice(r.memory, r.hidden + r.write_at, data[..n]), write_at := Advanced(r.size, r.write_at, n))
  }

  function Written(r: Ring, data: seq<char>): (w: Ring)
    requires InRange(r)
    ensures InRange(w)
  {
    Stored(Stored(r, data), data[Taken(r, data)..])
  }

  function Acked(r: Ring, bytes: nat): (a: Ring)
    requires InRange(r) && bytes <= |Contents(r)|
    ensures InRange(a)
  {
    r.(read_at := Advanced(r.size, r.read_at, bytes))
  }

  /** can_wrap_buffer, for data that does not yet start in the hidden area it is to be copied to. */
  predicate Wrappable(r: Ring)
    requires InRange(r)
  {
    0 <= r.read_at && DataLeftContinuous(r.size, r.read_at, r.write_at) <= r.hidden
  }

  function Wrapped(r: Ring): (w: Ring)
    requires InRange(r) && Wrappable(r)
    ensures |w.memory| == |r.memory|
  {
    var n := DataLeftContinuous(r.size, r.read_at, r.write_at);
    r.(memory := Splice(r.memory, r.hidden - n, r.memory[r.hidden + r.read_at..r.hidden + r.read_at + n]),
      read_at := -n)
  }

  // ----- what one operation does to the contents

  /** Room for n more bytes: all but one of size, or all of size once the offset is negative. */
  predicate Fits(r: Ring, n: nat)
    requires InRange(r)
  {
    |Contents(r)| + n < r.size || (r.read_at < 0 && |Contents(r)| + n == r.size)
  }

  lemma SpliceAfter(memory: seq<char>, at: nat, data: seq<char>, lo: nat)
    requires lo <= at && at + |data| <= |memory|
    ensures Splice(memory, at, data)[lo..at + |data|] == memory[lo..at] + data
  {
  }

  lemma SpliceBeyond(memory: seq<char>, at: nat, data: seq<char>, lo: nat)
    requires at + |data| <= lo <= |memory|
    ensures Splice(memory, at, data)[lo..] == memory[lo..]
  {
  }

  lemma StoredContents(r: Ring, data: seq<char>)
    requires InRange(r) && Fits(r, Taken(r, data))
    ensures Contents(Stored(r, data)) == Contents(r) + data[..Taken(r, data)]
  {
    hide Splice, Taken, Fits, Contents, InRange;
    if r.write_at < r.read_at {
      StoredWrapped(r, data);
    } else {
      StoredUnwrapped(r, data);
    }
  }

  lemma StoredUnwrapped(r: Ring, data: seq<char>)
    requires InRange(r) && Fits(r, Taken(r, data)) && r.read_at <= r.write_at
    ensures Contents(Stored(r, data)) == Contents(r) + data[..Taken(r, data)]
  {
    hide Splice, Taken;
    var n, s := Taken(r, data), Stored(r, data);
    SpliceAfter(r.memory, r.hidden + r.write_at, data[..n], r.hidden + r.read_at);
    if s.write_at < s.read_at {
      AllHeld(s);
    }
  }

  /** When the write offset has just started over, the data reaches the end of the memory. */
  lemma AllHeld(s: Ring)
    requires InRange(s) && s.write_at == 0 && 0 < s.read_at
    ensures Contents(s) == s.memory[s.hidden + s.read_at..s.hidden + s.size]
  {
    assert s.memory[s.hidden..s.hidden] == [];
  }

  lemma StoredWrapped(r: Ring, data: seq<char>)
    requires InRange(r) && Fits(r, Taken(r, data)) && r.write_at < r.read_at
    ensures Contents(Stored(r, data)) == Contents(r) + data[..Taken(r, data)]
  {
    hide Splice, Contents, Taken;
    var n, at, s := Taken(r, data), r.hidden + r.write_at, Stored(r, data);
    assert r.write_at + n < r.read_at;
    SpliceAfter(r.memory, at, data[..n], r.hidden);
    SpliceBeyond(r.memory, at, data[..n], r.hidden + r.read_at);
    WrappedContents(r);
    WrappedContents(s);
    Associates(r.memory[r.hidden + r.read_at..], r.memory[r.hidden..at], data[..n]);
  }

  lemma WrappedContents(r: Ring)
    requires InRange(r) && r.write_at < r.read_at
    ensures Contents(r) == r.memory[r.hidden + r.read_at..] + r.memory[r.hidden..r.hidden + r.write_at]
  {
  }

  lemma Associates(a: seq<char>, b: seq<char>, c: seq<char>)
    ensures a + b + c == a + (b + c)
  {
  }

  lemma StoredRest(r: Ring, data: seq<char>)
    requires InRange(r) && Fits(r, |data|)
    ensures var n, s := Taken(r, data), Stored(r, data);
            Fits(r, n) && Taken(s, data[n..]) == |data| - n
              && (|Contents(s)| == |Contents(r)| + n ==> Fits(s, |data| - n))
  {
    hide Splice, Contents;
  }

  /** write appends exactly when the data fits; a completely full buffer reads as empty. */
  lemma WriteAppends(r: Ring, data: seq<char>)
    requires InRange(r)
    ensures Contents(Written(r, data)) == Contents(r) + data <==> Fits(r, |data|)
  {
    hide Splice, Contents;
    if Fits(r, |data|) {
      WriteFits(r, data);
    }
  }

  lemma WriteFits(r: Ring, data: seq<char>)
    requires InRange(r) && Fits(r, |data|)
    ensures Contents(Written(r, data)) == Contents(r) + data
  {
    hide Splice, Contents, Taken, Stored, Fits, InRange;
    var n, s := Taken(r, data), Stored(r, data);
    StoredRest(r, data);
    StoredContents(r, data);
    StoredContents(s, data[n..]);
    Rejoined(Contents(r), data, n);
  }

  lemma Rejoined(held: seq<char>, data: seq<char>, n: nat)
    requires n <= |data|
    ensures held + data[..n] + data[n..][..|data| - n] == held + data
  {
  }

  /** As many bytes as are held always fit. */
  lemma HeldFits(r: Ring, held: nat, n: nat)
    requires InRange(r) && |Contents(r)| == held + n
    ensures held + n < r.size || (r.read_at < 0 && held + n == r.size)
  {
    hide Contents;
  }

  /** Written in two pieces, data is appended exactly if it fits as a whole. */
  lemma TwoWritesAppend(r: Ring, data: seq<char>, n: nat)
    requires InRange(r) && n <= |data|
    ensures Contents(Written(Written(r, data[..n]), data[n..])) == Contents(r) + data <==> Fits(r, |data|)
  {
    hide Contents, Written;
    var first := Written(r, data[..n]);
    var last := Written(first, data[n..]);
    WrittenKeeps(r, data[..n]);
    WrittenKeeps(first, data[n..]);
    WriteAppends(r, data[..n]);
    WriteAppends(first, data[n..]);
    assert data[..n] + data[n..] == data;
    if Contents(last) == Contents(r) + data {
      HeldFits(last, |Contents(r)|, |data|);
    }
    if Fits(r, |data|) {
      assert Fits(r, |data[..n]|);
      assert Contents(first) == Contents(r) + data[..n];
      assert Fits(first, |data[n..]|);
      assert Contents(r) + data[..n] + data[n..] == Contents(r) + data;
    }
  }

  lemma WrittenKeeps(r: Ring, data: seq<char>)
    requires InRange(r)
    ensures Written(r, data).size == r.size && Written(r, data).read_at == r.read_at
  {
    hide Splice;
  }

  lemma ContinuousHeld(r: Ring)
    requires InRange(r)
    ensures 0 <= DataLeftContinuous(r.size, r.read_at, r.write_at) <= |Contents(r)|
  {
    hide Contents;
  }

  lemma WriteUnwrapped(r: Ring, data: seq<char>)
    requires InRange(r) && 0 <= r.read_at <= r.write_at && r.write_at + |data| < r.size
    ensures Fits(r, |data|) && Written(r, data).write_at == r.write_at + |data| && Written(r, data).read_at == r.read_at
  {
  }

  /** read_ack drops a prefix, also from a negative offset. */
  lemma AckDrops(r: Ring, bytes: nat)
    requires InRange(r) && bytes <= |Contents(r)|
    ensures Contents(Acked(r, bytes)) == Contents(r)[bytes..]
  {
    hide Contents, InRange, Acked;
    if r.write_at < r.read_at {
      AckDropsWrapped(r, bytes);
    } else {
      AckDropsUnwrapped(r, bytes);
    }
  }

  lemma AckDropsUnwrapped(r: Ring, bytes: nat)
    requires InRange(r) && bytes <= |Contents(r)| && r.read_at <= r.write_at
    ensures Contents(Acked(r, bytes)) == Contents(r)[bytes..]
  {
    DropSlice(r.memory, r.hidden + r.read_at, r.hidden + r.write_at, bytes);
  }

  lemma AckDropsWrapped(r: Ring, bytes: nat)
    requires InRange(r) && bytes <= |Contents(r)| && r.write_at < r.read_at
    ensures Contents(Acked(r, bytes)) == Contents(r)[bytes..]
  {
    hide Contents;
    var a, at, end := Acked(r, bytes), r.hidden + r.read_at, r.hidden + r.write_at;
    WrappedContents(r);
    DropConcat(r.memory[at..], r.memory[r.hidden..end], bytes);
    if r.read_at + bytes < r.size {
      DropSlice(r.memory, at, |r.memory|, bytes);
      WrappedContents(a);
    } else {
      DropSlice(r.memory, r.hidden, end, r.read_at + bytes - r.size);
      UnwrappedContents(a);
    }
  }

  lemma UnwrappedContents(r: Ring)
    requires InRange(r) && r.read_at <= r.write_at
    ensures Contents(r) == r.memory[r.hidden + r.read_at..r.hidden + r.write_at]
  {
  }

  lemma DropConcat(a: seq<char>, b: seq<char>, n: nat)
    requires n <= |a| + |b|
    ensures (a + b)[n..] == if n < |a| then a[n..] + b else b[n - |a|..]
  {
  }

  lemma DropSlice(memory: seq<char>, lo: nat, hi: nat, n: nat)
    requires lo + n <= hi <= |memory|
    ensures memory[lo..hi][n..] == memory[lo + n..hi]
    ensures hi == |memory| ==> memory[lo..][n..] == memory[lo + n..]
  {
  }

  /** What wrap_buffer does: on wrapped or empty data it keeps the contents, now in one piece that
      starts in the hidden area; on unwrapped data it puts a copy of them before everything that
      lies between the start of the buffer and the write offset. */
  lemma WrapContents(r: Ring)
    requires InRange(r) && Wrappable(r)
    ensures InRange(Wrapped(r)) <==> r.write_at < r.read_at || r.write_at + |Contents(r)| <= r.size
    ensures InRange(Wrapped(r)) ==> Wrapped(r).read_at <= 0
    ensures r.write_at < r.read_at ==> Contents(Wrapped(r)) == Contents(r)
    ensures r.read_at <= r.write_at && InRange(Wrapped(r)) ==>
              Contents(Wrapped(r)) == Contents(r) + r.memory[r.hidden..r.hidden + r.write_at]
  {
    hide Splice, Contents, InRange;
    WrapInRange(r);
    if InRange(Wrapped(r)) {
      WrapMoves(r);
    }
  }

  lemma WrapInRange(r: Ring)
    requires InRange(r) && Wrappable(r)
    ensures InRange(Wrapped(r)) <==> r.write_at < r.read_at || r.write_at + |Contents(r)| <= r.size
    ensures Wrapped(r).read_at <= 0
  {
    hide Splice, Contents;
  }

  lemma WrapMoves(r: Ring)
    requires InRange(r) && Wrappable(r) && InRange(Wrapped(r))
    ensures Contents(Wrapped(r))
      == Contents(r) + if r.write_at < r.read_at then [] else r.memory[r.hidden..r.hidden + r.write_at]
  {
    hide Splice, Contents;
    var n := DataLeftContinuous(r.size, r.read_at, r.write_at);
    var moved := r.memory[r.hidden + r.read_at..r.hidden + r.read_at + n];
    SpliceBefore(r.memory, r.hidden, moved, r.write_at);
    Moved(r);
    UnwrappedContents(Wrapped(r));
    if r.write_at < r.read_at {
      WrappedContents(r);
    }
  }

  lemma Moved(r: Ring)
    requires InRange(r) && Wrappable(r)
    ensures var at, n := r.hidden + r.read_at, DataLeftContinuous(r.size, r.read_at, r.write_at);
            var moved := r.memory[at..at + n];
            moved == if r.write_at < r.read_at then r.memory[r.hidden + r.read_at..] else Contents(r)
  {
  }

  lemma SpliceBefore(memory: seq<char>, at: nat, data: seq<char>, n: nat)
    requires |data| <= at && at + n <= |memory|
    ensures Splice(memory, at - |data|, data)[at - |data|..at + n] == data + memory[at..at + n]
  {
  }

  /** wrap_buffer keeps the contents exactly when they are wrapped or nothing was written since the
      buffer last started over. */
  lemma WrapKeepsContents(r: Ring)
    requires InRange(r) && Wrappable(r)
    ensures InRange(Wrapped(r)) && Contents(Wrapped(r)) == Contents(r) <==> r.write_at < r.read_at || r.write_at == 0
  {
    WrapContents(r);
  }

  /** As many bytes as an empty buffer is long, written to it, read as none. */
  lemma FullReadsEmpty(r: Ring, data: seq<char>)
    requires InRange(r) && r.read_at == r.write_at == 0 && |data| == r.size
    ensures Contents(Written(r, data)) == []
  {
    hide Splice;
    var full := Stored(r, data);
    assert full.write_at == 0 && data[Taken(r, data)..] == [];
    assert Stored(full, []).write_at == 0;
  }

  /** One byte at offset 1 wrapped: it is there twice, with what lay before it in between. */
  lemma WrapRepeats()
    ensures var r := Ring(2, 4, "--abcd", 1, 2);
            InRange(r) && Wrappable(r) && Contents(r) == "b" && InRange(Wrapped(r)) && Contents(Wrapped(r)) == "bab"
  {
    var r := Ring(2, 4, "--abcd", 1, 2);
    assert r.memory[3..4] == "b";
    assert Wrapped(r).memory == "-babcd";
  }

  // ----- runs against a plain queue

  datatype Operation = Write(data: seq<char>) | Read(bytes: nat) | Wrap

  ghost predicate Allowed(r: Ring, op: Operation)
    requires InRange(r)
  {
    match op
    case Write(data) => Fits(r, |data|)
    case Read(bytes) => bytes <= |Contents(r)|
    case Wrap => Wrappable(r) && (r.write_at < r.read_at || r.write_at == 0)
  }

  function Next(r: Ring, op: Operation): Ring
    requires InRange(r) && Allowed(r, op)
  {
    match op
    case Write(data) => Written(r, data)
    case Read(bytes) => Acked(r, bytes)
    case Wrap => Wrapped(r)
  }

  function Queued(q: seq<char>, op: Operation): seq<char>
  {
    match op
    case Write(data) => q + data
    case Read(bytes) => if bytes <= |q| then q[bytes..] else []
    case Wrap => q
  }

  ghost predicate Run(rs: seq<Ring>, ops: seq<Operation>)
  {
    |rs| == |ops| + 1 && InRange(rs[0]) &&
    forall i :: 0 <= i < |ops| ==> InRange(rs[i]) && Allowed(rs[i], ops[i]) && rs[i + 1] == Next(rs[i], ops[i])
  }

  function Fifo(q: seq<char>, ops: seq<Operation>, n: nat): seq<char>
    requires n <= |ops|
    decreases n
  {
    if n == 0 then q else Queued(Fifo(q, ops, n - 1), ops[n - 1])
  }

  lemma NextRefines(r: Ring, op: Operation)
    requires InRange(r) && Allowed(r, op)
    ensures InRange(Next(r, op)) && Contents(Next(r, op)) == Queued(Contents(r), op)
    ensures op.Wrap? ==> DataLeftContinuous(r.size, Next(r, op).read_at, Next(r, op).write_at) == |Contents(r)|
  {
    match op
    case Write(data) => WriteAppends(r, data);
    case Read(bytes) => AckDrops(r, bytes);
    case Wrap => WrapContents(r);
  }

  /** Over every run the buffer is a FIFO queue of the bytes written and read. */
  lemma {:induction false} RunRefinesFifo(rs: seq<Ring>, ops: seq<Operation>, i: nat)
    requires Run(rs, ops) && i < |rs|
    ensures InRange(rs[i]) && Contents(rs[i]) == Fifo(Contents(rs[0]), ops, i)
    decreases i
  {
    if i != 0 {
      RunRefinesFifo(rs, ops, i - 1);
      NextRefines(rs[i - 1], ops[i - 1]);
      assert rs[i - 1 + 1] == Next(rs[i - 1], ops[i - 1]);
    }
  }

  // ----- the class

  class CircularBuffer {
    const size_hidden: nat
    const size: nat
    const memory: array<char>
    var read_at: int
    var write_at: int

    constructor (size: nat, size_hidden: nat)
      requires 0 < size
      ensures Valid() && fresh(memory) && this.size == size && this.size_hidden == size_hidden
      ensures read_at == 0 && write_at == 0 && Contents(State()) == []
    {
      this.size := size;
      this.size_hidden := size_hidden;
      memory := new char[size_hidden + size];
      read_at := 0;
      write_at := 0;
    }

    ghost function State(): Ring
      reads this, memory
    {
      Ring(size_hidden, size, memory[..], read_at, write_at)
    }

    ghost predicate Valid()
      reads this, memory
    {
      InRange(State())
    }

    method ReadAck(bytes: nat)
      requires Valid() && bytes <= |Contents(State())|
      modifies this`read_at
      ensures Valid() && State() == Acked(old(State()), bytes)
      ensures Contents(State()) == old(Contents(State()))[bytes..]
    {
      hide Remainder;
      AckDrops(State(), bytes);
      RemainderAdvances(size, read_at, bytes);
      read_at := Remainder(read_at + bytes, size);
    }

    /** Within the free space the offset advances and starts over at the end; beyond it, it is only known
        to be the remainder. */
    method WriteAck(bytes: nat)
      requires Valid()
      modifies this`write_at
      ensures write_at == (old(write_at) + bytes) % size
      ensures bytes <= old(SpaceLeft(size, read_at, write_at)) ==>
        Valid() && State() == old(State()).(write_at := Advanced(size, old(write_at), bytes))
    {
      hide Remainder;
      AnyRemainder(write_at + bytes, size);
      if bytes <= SpaceLeft(size, read_at, write_at) {
        RemainderAdvances(size, write_at, bytes);
      }
      write_at := Remainder(write_at + bytes, size);
    }

    /** Copies data, in two pieces when it has to wrap. */
    method Write(data: seq<char>)
      requires Valid()
      modifies this`write_at, memory
      ensures Valid() && State() == Written(old(State()), data)
      ensures Contents(State()) == old(Contents(State())) + data <==> old(Fits(State(), |data|))
    {
      hide InRange, Fits, Contents, Stored, Taken;
      WriteAppends(State(), data);
      ghost var before := State();
      var rest := data;
      for i := 0 to 2
        invariant Valid()
        invariant i == 0 ==> State() == before && rest == data
        invariant i == 1 ==> State() == Stored(before, data) && rest == data[Taken(before, data)..]
        invariant i == 2 ==> State() == Written(before, data)
      {
        var n := CopyPiece(rest);
        rest := rest[n..];
      }
    }

    method CopyPiece(data: seq<char>) returns (n: nat)
      requires Valid()
      modifies this`write_at, memory
      ensures Valid() && n == Taken(old(State()), data) && State() == Stored(old(State()), data)
    {
      hide Contents;
      n := Min(|data|, SpaceLeftContinuous(size, read_at, write_at));
      CopyIn(size_hidden + write_at, data[..n]);
      WriteAck(n);
    }

    method CopyIn(at: nat, data: seq<char>)
      requires at + |data| <= memory.Length
      modifies memory
      ensures memory[..] == Splice(old(memory[..]), at, data)
    {
      forall k | 0 <= k < |data| {
        memory[at + k] := data[k];
      }
    }

    /** Moves the continuous part of the data in front of the buffer. The caller must know that it
        fits there; the contents survive exactly in the cases of WrapKeepsContents. */
    method WrapBuffer()
      requires Valid() && Wrappable(State())
      modifies this`read_at, memory
      ensures State() == Wrapped(old(State()))
      ensures Valid() && Contents(State()) == old(Contents(State())) <==> write_at < old(read_at) || write_at == 0
    {
      hide Contents, Splice;
      WrapKeepsContents(State());
      ghost var before := State();
      var left := DataLeftContinuous(size, read_at, write_at);
      var data := memory[size_hidden + read_at..size_hidden + read_at + left];
      assert data == before.memory[size_hidden + read_at..size_hidden + read_at + left];
      CopyIn(size_hidden - left, data);
      read_at := -left;
    }

    /** Two reads of the continuous part empty this buffer, each written to the other one, which gains
        the contents exactly if all of them fit there. */
    method MoveTo(other: CircularBuffer)
      requires Valid() && other.Valid() && other != this && other.memory != memory
      modifies this`read_at, other`write_at, other.memory
      ensures Valid() && other.Valid() && Contents(State()) == [] && other.read_at == old(other.read_at)
      ensures var mine, n := old(Contents(State())), DataLeftContinuous(size, old(read_at), write_at);
              n <= |mine| && other.State() == Written(Written(old(other.State()), mine[..n]), mine[n..])
      ensures Contents(other.State()) == old(Contents(other.State()) + Contents(State()))
        <==> old(Fits(other.State(), |Contents(State())|))
    {
      hide Contents, Written, Acked, InRange, DataLeftContinuous, Fits;
      ghost var mine, theirs := Contents(State()), other.State();
      ghost var first := DataLeftContinuous(size, read_at, write_at);
      ContinuousHeld(State());
      for i := 0 to 2
        invariant Valid() && other.Valid() && write_at == old(write_at)
        invariant i == 0 ==> other.State() == theirs && Contents(State()) == mine && read_at == old(read_at)
        invariant 0 <= first <= |mine|
        invariant i == 1 ==> Contents(State()) == mine[first..] && (first < |mine| ==> read_at == 0)
        invariant i == 1 ==> other.State() == Written(theirs, mine[..first])
        invariant i == 2 ==> Contents(State()) == []
        invariant i == 2 ==> other.State() == Written(Written(theirs, mine[..first]), mine[first..])
      {
        var n := MovePiece(other);
        if i == 1 {
          assert mine[first..][..n] == mine[first..];
        }
      }
      TwoWritesAppend(theirs, mine, first);
    }

    method MovePiece(other: CircularBuffer) returns (n: nat)
      requires Valid() && other.Valid() && other != this && other.memory != memory
      modifies this`read_at, other`write_at, other.memory
      ensures Valid() && other.Valid() && n == DataLeftContinuous(size, old(read_at), write_at)
      ensures n <= |old(Contents(State()))| && Contents(State()) == old(Contents(State()))[n..]
      ensures n < |old(Contents(State()))| ==> read_at == 0
      ensures old(read_at) == 0 || old(Contents(State())) == [] ==> n == |old(Contents(State()))|
      ensures other.State() == Written(old(other.State()), old(Contents(State()))[..n])
    {
      n := DataLeftContinuous(size, read_at, write_at);
      var data := memory[size_hidden + read_at..size_hidden + read_at + n];
      assert data == Contents(State())[..n];
      other.Write(data);
      ReadAck(n);
    }
  }
}
