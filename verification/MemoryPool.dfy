/** The two-ended allocator of a JSON document (MemoryPool and StringCopier in
    pagers-server/json/ArduinoJson.h): strings grow from the left, slots from the right. Addresses
    count from the start of the buffer; a byte is a char. */
module MemoryPool {
  import opened Memory

  /** The size of a VariantSlot with 32-bit pointers. */
  const SLOT_SIZE: nat := 16

  /** How many slots a 16-bit link can tell apart. */
  const SLOT_MAX: nat := 0x8000

  // ----- the pool as a value

  /** A slot: the distance to the next one in slots, 0 for none, its key and what it holds. */
  datatype Slot = Slot(next: int, key: Option<nat>, content: nat)

  const CLEARED := Slot(0, None, 0)

  datatype Pool = Pool(memory: string, left: nat, slots: seq<Slot>, overflowed: bool)

  function Right(p: Pool): int
  {
    |p.memory| - SLOT_SIZE * |p.slots|
  }

  /** Where the k-th slot handed out lies. */
  function SlotAddress(p: Pool, k: nat): int
  {
    |p.memory| - SLOT_SIZE * (k + 1)
  }

  predicate InRange(p: Pool)
  {
    && p.left <= Right(p) && |p.memory| <= SLOT_SIZE * SLOT_MAX
    && (0 < p.left ==> p.memory[p.left - 1] == '\0')
  }

  /** The zones do not overlap, and neither do two slots. */
  lemma ZonesDisjoint(p: Pool, j: nat, k: nat)
    requires InRange(p) && j < k < |p.slots|
    ensures p.left <= SlotAddress(p, k) && SlotAddress(p, k) + SLOT_SIZE <= SlotAddress(p, j)
    ensures SlotAddress(p, j) + SLOT_SIZE <= |p.memory|
    ensures SlotAddress(p, j) - SlotAddress(p, k) == 16 * (k - j) && |p.memory| - SlotAddress(p, j) == 16 * (j + 1)
  {
  }

  predicate CanAlloc(p: Pool, bytes: nat)
  {
    p.left + bytes <= Right(p)
  }

  /** A copy of s, with its NUL, among the stored strings. */
  ghost predicate Stored(p: Pool, a: nat, s: string)
  {
    p.left <= |p.memory| && a + |s| < p.left && ReadsAt(p.memory, s, a)
  }

  /** A string can start at the beginning or after a NUL. */
  predicate Start(p: Pool, a: nat)
  {
    a == 0 || (a <= |p.memory| && p.memory[a - 1] == '\0')
  }

  /** The end of the string at an address. */
  function NulAfter(p: Pool, at: nat): (e: nat)
    requires InRange(p) && at < p.left
    ensures at <= e < p.left && p.memory[e] == '\0' && forall k :: at <= k < e ==> p.memory[k] != '\0'
    decreases p.left - at
  {
    if p.memory[at] == '\0' then at else NulAfter(p, at + 1)
  }

  predicate ReadsAt(memory: string, s: string, at: nat)
    requires at + |s| < |memory|
  {
    memory[at + |s|] == '\0' && memory[at..at + |s|] == s
  }

  function FoundFrom(p: Pool, s: string, next: nat): Option<nat>
    requires InRange(p)
    decreases p.left - next
  {
    if next + |s| >= p.left then None
    else if ReadsAt(p.memory, s, next) then Some(next)
    else FoundFrom(p, s, NulAfter(p, next) + 1)
  }

  function Found(p: Pool, s: string): Option<nat>
    requires InRange(p)
  {
    FoundFrom(p, s, 0)
  }

  /** A new copy of s at the end of the strings. */
  function Copied(p: Pool, s: string): Pool
    requires InRange(p) && CanAlloc(p, |s| + 1)
  {
    p.(memory := Splice(p.memory, p.left, s + "\0"), left := p.left + |s| + 1)
  }

  /** saveString: an existing copy, a new one, or none for lack of room. */
  function Saved(p: Pool, s: string): (Pool, Option<nat>)
    requires InRange(p)
  {
    if Found(p, s).Some? then (p, Found(p, s))
    else if CanAlloc(p, |s| + 1) then (Copied(p, s), Some(p.left))
    else (p.(overflowed := true), None)
  }

  /** A string assembled in the free zone, character by character, and then saved from there, unless
      something has overflowed before. */
  function Assembled(p: Pool, s: string): (Pool, Option<nat>)
    requires InRange(p)
  {
    if p.overflowed || !CanAlloc(p, |s| + 1) then (Written(p, s).(overflowed := true), None)
    else if Found(p, s).Some? then (Written(p, s), Found(p, s))
    else (Copied(p, s), Some(p.left))
  }

  /** What assembling writes into the free zone: as much as fits with a NUL behind it. */
  function Written(p: Pool, s: string): Pool
    requires InRange(p)
  {
    p.(memory := Splice(p.memory, p.left, s[..Fitted(Right(p) - p.left, s)]))
  }

  /** A new slot, with whatever its memory held before. */
  function Allocated(p: Pool, before: Slot): (Pool, Option<nat>)
  {
    if CanAlloc(p, SLOT_SIZE) then (p.(slots := p.slots + [before]), Some(|p.slots|))
      else (p.(overflowed := true), None)
  }

  lemma FoundNext(p: Pool, s: string, next: nat)
    requires InRange(p) && next + |s| < p.left
    ensures FoundFrom(p, s, next) == if ReadsAt(p.memory, s, next) then Some(next)
      else FoundFrom(p, s, NulAfter(p, next) + 1)
  {
  }

  lemma FoundNot(p: Pool, s: string)
    requires InRange(p)
    ensures forall next: nat :: next + |s| >= p.left ==> FoundFrom(p, s, next) == None
  {
  }

  // ----- what finding means

  lemma {:induction false} FoundSound(p: Pool, s: string, next: nat)
    requires InRange(p) && Start(p, next)
    ensures FoundFrom(p, s, next).Some? ==>
      Stored(p, FoundFrom(p, s, next).value, s) && Start(p, FoundFrom(p, s, next).value)
    decreases p.left - next
  {
    hide ReadsAt;
    if next + |s| < p.left && !ReadsAt(p.memory, s, next) {
      FoundSound(p, s, NulAfter(p, next) + 1);
    }
  }

  lemma {:induction false} FoundComplete(p: Pool, s: string, next: nat, a: nat)
    requires InRange(p) && next <= a && Stored(p, a, s) && Start(p, a)
    ensures FoundFrom(p, s, next).Some?
    decreases p.left - next
  {
    hide ReadsAt;
    if !ReadsAt(p.memory, s, next) {
      NulBefore(p, next, a);
      FoundComplete(p, s, NulAfter(p, next) + 1, a);
    }
  }

  lemma NulBefore(p: Pool, next: nat, a: nat)
    requires InRange(p) && next < a < p.left && Start(p, a)
    ensures NulAfter(p, next) < a
  {
    assert p.memory[a - 1] == '\0';
  }

  /** Searching finds a copy exactly if one is stored where a string starts. */
  lemma FindsStored(p: Pool, s: string)
    requires InRange(p)
    ensures Found(p, s).Some? <==> exists a :: Stored(p, a, s) && Start(p, a)
    ensures Found(p, s).Some? ==> Stored(p, Found(p, s).value, s) && Start(p, Found(p, s).value)
  {
    FoundSound(p, s, 0);
    if a :| Stored(p, a, s) && Start(p, a) {
      FoundComplete(p, s, 0, a);
    }
  }

  // ----- runs

  datatype Operation = Save(s: string) | Assemble(s: string) | Allocate(before: Slot)

  function Result(p: Pool, op: Operation): (Pool, Option<nat>)
    requires InRange(p)
  {
    match op
    case Save(s) => Saved(p, s)
    case Assemble(s) => Assembled(p, s)
    case Allocate(before) => Allocated(p, before)
  }

  function Next(p: Pool, op: Operation): Pool
    requires InRange(p)
  {
    Result(p, op).0
  }

  ghost predicate Run(ps: seq<Pool>, ops: seq<Operation>)
  {
    |ps| == |ops| + 1 && InRange(ps[0]) &&
    forall i :: 0 <= i < |ops| ==> (InRange(ps[i]) ==> ps[i + 1] == Next(ps[i], ops[i]))
  }

  /** The strings stay as they are, and whatever is written is written between the zones. */
  ghost predicate Extends(p: Pool, q: Pool)
  {
    StringsKept(p, q) && p.slots <= q.slots
  }

  ghost predicate StringsKept(p: Pool, q: Pool)
  {
    |p.memory| == |q.memory| && p.left <= q.left <= |q.memory| && q.memory[..p.left] == p.memory[..p.left]
  }

  lemma CopiedExtends(p: Pool, s: string)
    requires InRange(p) && CanAlloc(p, |s| + 1)
    ensures InRange(Copied(p, s)) && Extends(p, Copied(p, s)) && Stored(Copied(p, s), p.left, s)
      && Start(Copied(p, s), p.left)
  {
    var q := Copied(p, s);
    assert q.memory[p.left..p.left + |s| + 1] == s + "\0";
    assert q.memory[p.left..p.left + |s|] == s;
  }

  lemma WrittenExtends(p: Pool, s: string)
    requires InRange(p)
    ensures InRange(Written(p, s)) && Extends(p, Written(p, s))
  {
  }

  lemma StoredStays(p: Pool, q: Pool, a: nat, s: string)
    requires Extends(p, q) && Stored(p, a, s) && Start(p, a)
    ensures Stored(q, a, s) && Start(q, a)
  {
    assert q.memory[..p.left][a..a + |s|] == q.memory[a..a + |s|];
    assert p.memory[..p.left][a..a + |s|] == p.memory[a..a + |s|];
    assert q.memory[..p.left][a + |s|] == p.memory[..p.left][a + |s|];
    if a != 0 {
      assert q.memory[..p.left][a - 1] == p.memory[..p.left][a - 1];
    }
  }

  lemma NextExtends(p: Pool, op: Operation)
    requires InRange(p)
    ensures InRange(Next(p, op)) && Extends(p, Next(p, op))
    ensures Next(p, op).slots == p.slots + if op.Allocate? && Result(p, op).1.Some? then [op.before] else []
  {
    hide Found, Splice;
    match op
    case Save(s) => if CanAlloc(p, |s| + 1) { CopiedExtends(p, s); }
    case Assemble(s) => WrittenExtends(p, s); if CanAlloc(p, |s| + 1) { CopiedExtends(p, s); }
    case Allocate(_) =>
  }

  /** What saving returns: the address of a stored copy, and a used-up pool if it fails. */
  lemma SaveReturns(p: Pool, op: Operation)
    requires InRange(p) && !op.Allocate?
    ensures var (q, r) := Result(p, op);
            && (r.Some? ==> Stored(q, r.value, op.s) && Start(q, r.value))
            && (r.None? ==> q.overflowed && (!CanAlloc(p, |op.s| + 1) || (op.Assemble? && p.overflowed)))
            && ((exists a :: Stored(p, a, op.s) && Start(p, a)) ==>
              q.left == p.left && (op.Save? ==> r.Some? && q == p))
  {
    hide FoundFrom, Splice;
    FindsStored(p, op.s);
    WrittenExtends(p, op.s);
    if CanAlloc(p, |op.s| + 1) {
      CopiedExtends(p, op.s);
    }
    if Found(p, op.s).Some? {
      StoredStays(p, Written(p, op.s), Found(p, op.s).value, op.s);
    }
  }

  lemma ExtendsTransitive(p: Pool, q: Pool, r: Pool)
    requires Extends(p, q) && Extends(q, r)
    ensures Extends(p, r)
  {
    assert r.memory[..q.left][..p.left] == r.memory[..p.left];
    assert q.memory[..q.left][..p.left] == q.memory[..p.left];
  }

  lemma {:induction false} RunExtends(ps: seq<Pool>, ops: seq<Operation>, i: nat, j: nat)
    requires Run(ps, ops) && i <= j < |ps|
    ensures InRange(ps[j]) && Extends(ps[i], ps[j])
    decreases j
  {
    hide Next, Extends;
    if i < j {
      RunExtends(ps, ops, i, j - 1);
      NextExtends(ps[j - 1], ops[j - 1]);
      assert ps[j - 1 + 1] == Next(ps[j - 1], ops[j - 1]);
      ExtendsTransitive(ps[i], ps[j - 1], ps[j]);
    } else {
      RunInRange(ps, ops, j);
      SelfExtends(ps[j]);
    }
  }

  lemma SelfExtends(p: Pool)
    requires InRange(p)
    ensures Extends(p, p)
  {
  }

  lemma NextOverflows(p: Pool, op: Operation)
    requires InRange(p)
    ensures Next(p, op).overflowed <==> p.overflowed || Result(p, op).1.None?
  {
    hide Found, Splice, Fitted;
  }

  /** Over every run: the pool says that it has overflowed exactly if some request was refused. */
  lemma {:induction false} RunOverflows(ps: seq<Pool>, ops: seq<Operation>, j: nat)
    requires Run(ps, ops) && j < |ps|
    ensures forall i :: 0 <= i <= j ==> InRange(ps[i])
    ensures ps[j].overflowed <==> ps[0].overflowed || exists i :: 0 <= i < j && Result(ps[i], ops[i]).1.None?
    decreases j
  {
    hide Next, Result;
    RunInRange(ps, ops, j);
    if j != 0 {
      RunOverflows(ps, ops, j - 1);
      NextOverflows(ps[j - 1], ops[j - 1]);
      assert ps[j - 1 + 1] == Next(ps[j - 1], ops[j - 1]);
    }
  }

  lemma {:induction false} RunInRange(ps: seq<Pool>, ops: seq<Operation>, i: nat)
    requires Run(ps, ops) && i < |ps|
    ensures InRange(ps[i])
    decreases i
  {
    hide Next;
    if i != 0 {
      RunInRange(ps, ops, i - 1);
      NextExtends(ps[i - 1], ops[i - 1]);
      assert ps[i - 1 + 1] == Next(ps[i - 1], ops[i - 1]);
    }
  }

  /** Over every run, a string once saved is never overwritten, and saving it again returns a copy
      without using memory. */
  lemma SavedStaysSaved(ps: seq<Pool>, ops: seq<Operation>, i: nat, j: nat)
    requires Run(ps, ops) && i < j <= |ops| && !ops[i].Allocate? && InRange(ps[i]) && InRange(ps[j])
    requires Result(ps[i], ops[i]).1.Some?
    ensures Stored(ps[j], Result(ps[i], ops[i]).1.value, ops[i].s)
    ensures Saved(ps[j], ops[i].s).1.Some? && Saved(ps[j], ops[i].s).0 == ps[j]
    ensures Stored(ps[j], Saved(ps[j], ops[i].s).1.value, ops[i].s)
    ensures Assembled(ps[j], ops[i].s).0.left == ps[j].left
  {
    hide Saved, Assembled, Extends, Stored, Start;
    var s, a := ops[i].s, Result(ps[i], ops[i]).1.value;
    SaveReturns(ps[i], ops[i]);
    assert ps[i + 1] == Next(ps[i], ops[i]);
    RunExtends(ps, ops, i + 1, j);
    StoredStays(ps[i + 1], ps[j], a, s);
    SaveReturns(ps[j], Save(s));
    SaveReturns(ps[j], Assemble(s));
  }

  /** Over every run, each slot handed out is a new one, between the strings and the older slots. */
  lemma SlotsAreNew(ps: seq<Pool>, ops: seq<Operation>, i: nat, j: nat)
    requires Run(ps, ops) && i < j < |ops| && ops[i].Allocate? && ops[j].Allocate? && InRange(ps[i]) && InRange(ps[j])
    requires Result(ps[i], ops[i]).1.Some? && Result(ps[j], ops[j]).1.Some?
    ensures var k, l := Result(ps[i], ops[i]).1.value, Result(ps[j], ops[j]).1.value;
            && k < l && ps[j + 1].left <= SlotAddress(ps[j + 1], l)
            && SlotAddress(ps[j + 1], l) + SLOT_SIZE <= SlotAddress(ps[i + 1], k)
  {
    assert ps[i + 1] == Next(ps[i], ops[i]);
    assert ps[j + 1] == Next(ps[j], ops[j]);
    RunExtends(ps, ops, i + 1, j);
    RunExtends(ps, ops, j, j + 1);
  }

  // ----- the classes

  class MemoryPool {
    const memory: array<char>
    const slots: array<Slot>
    var left: nat
    var count: nat
    var overflowed: bool

    constructor (capacity: nat)
      requires capacity <= SLOT_SIZE * SLOT_MAX
      ensures Valid() && fresh(memory) && fresh(slots) && memory.Length == capacity
      ensures left == 0 && count == 0 && !overflowed
    {
      memory := new char[capacity];
      slots := new Slot[capacity / SLOT_SIZE](_ => CLEARED);
      left, count, overflowed := 0, 0, false;
    }

    ghost function State(): Pool
      requires count <= slots.Length
      reads this, memory, slots
    {
      Pool(memory[..], left, slots[..count], overflowed)
    }

    ghost predicate Valid()
      reads this, memory, slots
    {
      count <= slots.Length && slots.Length == memory.Length / SLOT_SIZE && InRange(State())
    }

    predicate HasRoom(bytes: nat)
      reads this
    {
      left + bytes <= memory.Length - SLOT_SIZE * count
    }

    method FindString(s: string) returns (r: Option<nat>)
      requires Valid()
      ensures r == Found(State(), s)
    {
      hide FoundFrom, NulAfter, ReadsAt;
      ghost var p := State();
      var next := 0;
      FoundNot(p, s);
      while next + |s| < left
        invariant FoundFrom(p, s, next) == Found(p, s)
        decreases left - next
      {
        FoundNext(p, s, next);
        if ReadsAt(memory[..], s, next) {
          return Some(next);
        }
        next := StringEnd(next);
        next := next + 1;
      }
      return None;
    }

    method StringEnd(start: nat) returns (end: nat)
      requires Valid() && start < left
      ensures end == NulAfter(State(), start)
    {
      end := start;
      while memory[end] != '\0'
        invariant start <= end < left && NulAfter(State(), end) == NulAfter(State(), start)
        decreases left - end
      {
        end := end + 1;
      }
    }

    method AllocString(n: nat) returns (r: Option<nat>)
      requires Valid()
      modifies this`left, this`overflowed
      ensures r == if old(HasRoom(n)) then Some(old(left)) else None
      ensures left == (if r.Some? then old(left) + n else old(left)) && overflowed == (old(overflowed) || r.None?)
    {
      if !HasRoom(n) {
        overflowed := true;
        return None;
      }
      r := Some(left);
      left := left + n;
    }

    method SaveString(s: string) returns (r: Option<nat>)
      requires Valid()
      modifies this`left, this`overflowed, memory
      ensures Valid() && (State(), r) == Saved(old(State()), s)
    {
      hide FoundFrom;
      ghost var p := State();
      if CanAlloc(p, |s| + 1) {
        CopiedExtends(p, s);
      }
      r := FindString(s);
      if r.Some? {
        return;
      }
      r := AllocString(|s| + 1);
      if r.Some? {
        PutString(r.value, s + "\0");
      }
    }

    method PutString(at: nat, s: string)
      requires at + |s| <= memory.Length
      modifies memory
      ensures memory[..] == Splice(old(memory[..]), at, s)
    {
      forall k | 0 <= k < |s| {
        memory[at + k] := s[k];
      }
    }

    /** Commits what a copier wrote at the start of the free zone, or drops it for an existing copy. */
    method SaveStringFromFreeZone(length: nat) returns (r: nat)
      requires Valid() && HasRoom(length + 1)
      modifies this`left, memory
      ensures var p, s := old(State()), old(memory[left..left + length]);
              Valid() && if Found(p, s).Some? then State() == p && r == Found(p, s).value
                         else State() == Copied(p, s) && r == p.left
    {
      hide FoundFrom;
      ghost var p := State();
      var s := memory[left..left + length];
      CopiedExtends(p, s);
      var dup := FindString(s);
      if dup.Some? {
        return dup.value;
      }
      r := left;
      left := left + length;
      memory[left] := '\0';
      left := left + 1;
      NulWritten(p.memory, p.left, length);
    }

    method AllocVariant() returns (r: Option<nat>)
      requires Valid()
      modifies this`count, this`overflowed
      ensures Valid() && (r.Some? ==> r.value == old(count) < slots.Length)
      ensures (State(), r) == Allocated(old(State()), if r.Some? then slots[r.value] else CLEARED)
    {
      if !HasRoom(SLOT_SIZE) {
        overflowed := true;
        return None;
      }
      RoomForSlot(memory.Length, count);
      r := Some(count);
      assert slots[..count + 1] == slots[..count] + [slots[count]];
      count := count + 1;
    }
  }

  lemma NulWritten(memory: string, at: nat, length: nat)
    requires at + length < |memory|
    ensures Splice(memory, at, memory[at..at + length] + "\0") == memory[at + length := '\0']
  {
  }

  lemma RoomForSlot(capacity: nat, count: nat)
    requires SLOT_SIZE * count + SLOT_SIZE <= capacity
    ensures count < capacity / SLOT_SIZE
  {
  }

  /** Assembles one string at a time in the free zone of a pool. */
  class StringCopier {
    const pool: MemoryPool
    var size: nat
    var capacity: nat

    /** The pool when the string was started. */
    ghost var start: Pool

    constructor (pool: MemoryPool)
      requires pool.Valid()
      ensures this.pool == pool
    {
      this.pool, size, capacity, start := pool, 0, 0, pool.State();
    }

    /** The pool is the one at the start, with as much of s in its free zone as fits. */
    ghost predicate Holds(s: string)
      reads this, pool, pool.memory, pool.slots
    {
      && pool.Valid() && InRange(start) && capacity == Right(start) - start.left && size == Fitted(capacity, s)
      && pool.State() == Written(start, s).(overflowed := start.overflowed || !CanAlloc(start, |s| + 1))
    }

    method StartString()
      requires pool.Valid()
      modifies this, pool`overflowed
      ensures Holds("") && start == old(pool.State())
    {
      hide Written, Fitted, CanAlloc;
      start := pool.State();
      WrittenNothing(start);
      size, capacity := 0, pool.memory.Length - SLOT_SIZE * pool.count - pool.left;
      if capacity == 0 {
        pool.overflowed := true;
      }
    }

    method Append(c: char, ghost s: string)
      requires Holds(s)
      modifies this`size, pool`overflowed, pool.memory
      ensures Holds(s + [c]) && start == old(start)
    {
      hide Written, Fitted, CanAlloc;
      WrittenMore(start, s, c);
      WrittenExtends(start, s + [c]);
      if size + 1 < capacity {
        pool.memory[pool.left + size] := c;
        size := size + 1;
      } else {
        pool.overflowed := true;
      }
    }

    /** The address of the string, unless it did not fit or something had overflowed before. */
    method Save(ghost s: string) returns (r: Option<nat>)
      requires Holds(s)
      modifies pool`left, pool.memory
      ensures pool.Valid() && (pool.State(), r) == Assembled(start, s)
    {
      if pool.overflowed {
        return None;
      }
      hide FoundFrom, Splice;
      FreeZone(start, s);
      var a := pool.SaveStringFromFreeZone(size);
      return Some(a);
    }
  }

  /** How much of a string the free zone takes, with room left for a NUL. */
  function Fitted(capacity: nat, s: string): nat
  {
    if |s| < capacity then |s| else if capacity == 0 then 0 else capacity - 1
  }

  lemma WrittenNothing(p: Pool)
    requires InRange(p)
    ensures Written(p, "") == p && Fitted(Right(p) - p.left, "") == 0
      && CanAlloc(p, |""| + 1) == (Right(p) - p.left != 0)
  {
    hide Splice;
    assert ""[..0] == "";
    SpliceNothing(p.memory, p.left);
  }

  lemma SpliceNothing(memory: string, at: nat)
    requires at <= |memory|
    ensures Splice(memory, at, "") == memory
  {
  }

  /** One more character in the free zone, or none if only the NUL would still fit. */
  lemma WrittenMore(p: Pool, s: string, c: char)
    requires InRange(p)
    ensures Written(p, s).left == p.left && |Written(p, s).memory| == |p.memory|
    ensures var capacity := Right(p) - p.left;
            if Fitted(capacity, s) + 1 < capacity then
              && p.left + Fitted(capacity, s) < |p.memory| && Fitted(capacity, s + [c]) == Fitted(capacity, s) + 1
              && Written(p, s + [c])
                 == Written(p, s).(memory := Written(p, s).memory[p.left + Fitted(capacity, s) := c])
              && CanAlloc(p, |s + [c]| + 1) && CanAlloc(p, |s| + 1)
            else
              && Fitted(capacity, s + [c]) == Fitted(capacity, s) && Written(p, s + [c]) == Written(p, s)
              && !CanAlloc(p, |s + [c]| + 1)
  {
    hide Splice;
    var capacity := Right(p) - p.left;
    var n := Fitted(capacity, s);
    if n + 1 < capacity {
      SpliceMore(p.memory, p.left, s, c);
      assert s[..n] == s && (s + [c])[..n + 1] == s + [c];
    } else {
      assert (s + [c])[..n] == s[..n];
    }
  }

  lemma SpliceMore(memory: string, at: nat, s: string, c: char)
    requires at + |s| < |memory|
    ensures Splice(memory, at, s)[at + |s| := c] == Splice(memory, at, s + [c])
  {
  }

  /** Once a string is assembled, committing it is the same as copying it at once. */
  lemma FreeZone(p: Pool, s: string)
    requires InRange(p) && CanAlloc(p, |s| + 1)
    ensures InRange(Written(p, s)) && Written(p, s).memory[p.left..p.left + |s|] == s
    ensures Found(Written(p, s), s) == Found(p, s) && Copied(Written(p, s), s) == Copied(p, s)
    ensures CanAlloc(Written(p, s), |s| + 1)
  {
    hide FoundFrom, Splice;
    assert s[..|s|] == s;
    WrittenExtends(p, s);
    SamePrefix(p, Written(p, s));
    FoundSame(p, Written(p, s), s, 0);
    SpliceTwice(p.memory, p.left, s);
  }

  /** Assembling a string twice leaves what assembling it once does. */
  lemma WrittenTwice(p: Pool, s: string)
    requires InRange(p) && CanAlloc(p, |s| + 1)
    ensures InRange(Written(p, s)) && Written(Written(p, s), s) == Written(p, s)
  {
    hide Splice;
    assert s[..|s|] == s;
    WrittenExtends(p, s);
    SpliceAgain(p.memory, p.left, s);
  }

  lemma SpliceAgain(memory: string, at: nat, s: string)
    requires at + |s| <= |memory|
    ensures Splice(Splice(memory, at, s), at, s) == Splice(memory, at, s)
  {
  }

  lemma SpliceTwice(memory: string, at: nat, s: string)
    requires at + |s| + 1 <= |memory|
    ensures Splice(Splice(memory, at, s), at, s + "\0") == Splice(memory, at, s + "\0")
    ensures Splice(memory, at, s)[at..at + |s|] == s
  {
  }

  lemma SamePrefix(p: Pool, q: Pool)
    requires StringsKept(p, q)
    ensures forall k :: 0 <= k < p.left ==> p.memory[k] == q.memory[k]
  {
    assert forall k :: 0 <= k < p.left ==> q.memory[..p.left][k] == q.memory[k] && p.memory[..p.left][k] == p.memory[k];
  }

  lemma {:induction false} NulSame(p: Pool, q: Pool, at: nat)
    requires InRange(p) && InRange(q) && p.left <= q.left && at < p.left && forall k :: 0 <= k < p.left ==>
      p.memory[k] == q.memory[k]
    ensures NulAfter(p, at) == NulAfter(q, at)
    decreases p.left - at
  {
    if p.memory[at] != '\0' {
      NulSame(p, q, at + 1);
    }
  }

  lemma ReadsSame(p: Pool, q: Pool, s: string, at: nat)
    requires at + |s| < p.left <= |p.memory| && p.left <= |q.memory| && forall k :: 0 <= k < p.left ==>
      p.memory[k] == q.memory[k]
    ensures ReadsAt(p.memory, s, at) == ReadsAt(q.memory, s, at)
  {
    assert p.memory[at..at + |s|] == q.memory[at..at + |s|];
  }

  lemma {:induction false} FoundSame(p: Pool, q: Pool, s: string, next: nat)
    requires InRange(p) && InRange(q) && p.left == q.left && forall k :: 0 <= k < p.left ==> p.memory[k] == q.memory[k]
    ensures FoundFrom(p, s, next) == FoundFrom(q, s, next)
    decreases p.left - next
  {
    hide ReadsAt, NulAfter;
    if next + |s| < p.left {
      ReadsSame(p, q, s, next);
      NulSame(p, q, next);
      FoundSame(p, q, s, NulAfter(p, next) + 1);
    }
  }
}
