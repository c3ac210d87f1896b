/** The server's pagers and their file (pagers-server/pagers): counters per pager, the map kept
    by id, and the save behind a dirty flag. */
module Pagers {
  import opened Memory
  import opened Security

  /** A file of the flash file system, as its bytes. */
  datatype File = Absent | Present(content: string)

  // ----- pagers

  datatype PagerState = PagerState(flash_left: int, pair_left: int, flash_time: ushort)

  class Pager {
    const device_id: ushort
    var flash_msgs_left: int
    var pair_msgs_left: int
    var flash_time: ushort

    /** The flash time starts undefined; it is set together with the first flash counter. */
    constructor (id: ushort, undefinedTime: ushort)
      ensures device_id == id && State() == PagerState(0, 0, undefinedTime)
    {
      device_id := id;
      flash_msgs_left, pair_msgs_left := 0, 0;
      flash_time := undefinedTime;
    }

    ghost function State(): PagerState
      reads this
    {
      PagerState(flash_msgs_left, pair_msgs_left, flash_time)
    }

    method SetFlashMsgsLeft(n: ushort)
      modifies this`flash_msgs_left
      ensures flash_msgs_left == n as int
    {
      flash_msgs_left := n as int;
    }

    method SetPairMsgsLeft(n: ushort)
      modifies this`pair_msgs_left
      ensures pair_msgs_left == n as int
    {
      pair_msgs_left := n as int;
    }

    method FlashMsgSent()
      modifies this`flash_msgs_left
      ensures flash_msgs_left == old(flash_msgs_left) - 1
    {
      flash_msgs_left := flash_msgs_left - 1;
    }

    method PairMsgSent()
      modifies this`pair_msgs_left
      ensures pair_msgs_left == old(pair_msgs_left) - 1
    {
      pair_msgs_left := pair_msgs_left - 1;
    }
  }

  // ----- the order of a std::map

  function IdsBelow(ids: set<ushort>, n: nat): (s: seq<ushort>)
    requires n <= 0x1_0000
    decreases n
  {
    if n == 0 then []
    else IdsBelow(ids, n - 1) + if (n - 1) as ushort in ids then [(n - 1) as ushort] else []
  }

  /** The keys of the map in iteration order. */
  function Ascending(ids: set<ushort>): seq<ushort>
  {
    IdsBelow(ids, 0x1_0000)
  }

  lemma {:induction false} IdsBelowContents(ids: set<ushort>, n: nat)
    requires n <= 0x1_0000
    ensures forall id: ushort :: id in IdsBelow(ids, n) <==> id in ids && id as int < n
    ensures forall i, j :: 0 <= i < j < |IdsBelow(ids, n)| ==> IdsBelow(ids, n)[i] < IdsBelow(ids, n)[j]
    decreases n
  {
    if n != 0 {
      var before := IdsBelow(ids, n - 1);
      IdsBelowContents(ids, n - 1);
      forall i | 0 <= i < |before|
        ensures before[i] as int < n - 1
      {
        assert before[i] in before;
      }
    }
  }

  /** Iteration visits every key once, in ascending order. */
  lemma AscendingContents(ids: set<ushort>)
    ensures forall id :: id in Ascending(ids) <==> id in ids
    ensures forall i, j :: 0 <= i < j < |Ascending(ids)| ==> Ascending(ids)[i] < Ascending(ids)[j]
  {
    IdsBelowContents(ids, 0x1_0000);
  }

  // ----- the file format

  function HexDigit(d: nat): char
    requires d < 16
  {
    "0123456789abcdef"[d]
  }

  predicate IsHex(c: char)
  {
    '0' <= c <= '9' || 'a' <= c <= 'f' || 'A' <= c <= 'F'
  }

  function HexValue(c: char): (d: nat)
    requires IsHex(c)
    ensures d < 16
  {
    if c <= '9' then c as int - '0' as int
    else if 'a' <= c then c as int - 'a' as int + 10
    else c as int - 'A' as int + 10
  }

  /** "%04x\n" of an id. */
  function Line(id: ushort): (line: string)
    ensures |line| == 5
  {
    var n := id as int;
    [HexDigit(n / 0x1000), HexDigit(n / 0x100 % 16), HexDigit(n / 0x10 % 16), HexDigit(n % 16), '\n']
  }

  function Lines(ids: seq<ushort>): (text: string)
    ensures |text| == 5 * |ids|
    decreases |ids|
  {
    if ids == [] then [] else Lines(ids[..|ids| - 1]) + Line(ids[|ids| - 1])
  }

  predicate IsBlank(c: char)
  {
    c == ' ' || '\t' <= c <= '\r'
  }

  function AfterBlanks(s: string): string
  {
    if s != "" && IsBlank(s[0]) then AfterBlanks(s[1..]) else s
  }

  /** The digits s starts with, behind a number read so far. */
  function HexNumber(s: string, n: nat): nat
    decreases |s|
  {
    if s == "" || !IsHex(s[0]) then n else HexNumber(s[1..], 0x10 * n + HexValue(s[0]))
  }

  /** sscanf "%x": blanks, a sign, a prefix and digits; without a digit nothing is assigned. */
  function ScanHex(s: string): Option<int>
  {
    var t := AfterBlanks(s);
    var negative := t != "" && t[0] == '-';
    var u := if negative || (t != "" && t[0] == '+') then t[1..] else t;
    var digits := if |u| >= 2 && u[0] == '0' && (u[1] == 'x' || u[1] == 'X') then u[2..] else u;
    if digits == "" || !IsHex(digits[0]) then None
    else Some(if negative then 0 - HexNumber(digits, 0) else HexNumber(digits, 0))
  }

  /** What the source leaves undefined: the flash time of a new pager, and the number a record
      without digits stands for. */
  datatype Undefined = Undefined(time: ushort, id: nat -> ushort)

  /** The id of a record of five characters, narrowed to 16 bits. */
  function LineId(line: string, undefinedId: ushort): ushort
    requires |line| == 5
  {
    match ScanHex(line[..4])
    case Some(n) => (n % 0x1_0000) as ushort
    case None => undefinedId
  }

  /** Every five characters are a record; a shorter rest is ignored. */
  function LoadedIds(content: string, records: nat, u: Undefined): (ids: set<ushort>)
    requires 5 * records <= |content|
    decreases records
  {
    if records == 0 then {}
    else
      var n := records - 1;
      LoadedIds(content, n, u) + {LineId(content[5 * n..5 * n + 5], u.id(n))}
  }

  function FileIds(file: File, u: Undefined): set<ushort>
  {
    match file
    case Absent => {}
    case Present(content) => LoadedIds(content, |content| / 5, u)
  }

  lemma HexRoundTrip(d: nat)
    requires d < 16
    ensures IsHex(HexDigit(d)) && HexValue(HexDigit(d)) == d
  {
  }

  lemma ScanPlain(s: string)
    requires |s| >= 2 && IsHex(s[0]) && IsHex(s[1])
    ensures ScanHex(s) == Some(HexNumber(s, 0))
  {
    assert AfterBlanks(s) == s;
  }

  lemma NextDigit(c: char, s: string, n: nat)
    requires IsHex(c)
    ensures HexNumber([c] + s, n) == HexNumber(s, 0x10 * n + HexValue(c))
  {
    assert ([c] + s)[1..] == s;
  }

  lemma FourDigits(a: char, b: char, c: char, d: char)
    requires IsHex(a) && IsHex(b) && IsHex(c) && IsHex(d)
    ensures ScanHex([a, b, c, d]) == Some(0x1000 * HexValue(a) + 0x100 * HexValue(b) + 0x10 * HexValue(c) + HexValue(d))
  {
    ScanPlain([a, b, c, d]);
    hide ScanHex, HexNumber, HexValue, IsHex;
    assert [a, b, c, d] == [a] + ([b] + ([c] + ([d] + []))) && [d] + [] == [d];
    NextDigit(a, [b] + ([c] + ([d] + [])), 0);
    NextDigit(b, [c] + ([d] + []), HexValue(a));
    NextDigit(c, [d] + [], 0x10 * HexValue(a) + HexValue(b));
    NextDigit(d, [], 0x10 * (0x10 * HexValue(a) + HexValue(b)) + HexValue(c));
    NoDigits(0x10 * (0x10 * (0x10 * HexValue(a) + HexValue(b)) + HexValue(c)) + HexValue(d));
  }

  lemma NoDigits(n: nat)
    ensures HexNumber("", n) == n
  {
  }

  lemma HexParts(n: nat)
    ensures n == 0x1000 * (n / 0x1000) + 0x100 * (n / 0x100 % 16) + 0x10 * (n / 0x10 % 16) + n % 16
  {
    assert n / 0x100 == 16 * (n / 0x1000) + n / 0x100 % 16;
    assert n / 0x10 == 16 * (n / 0x100) + n / 0x10 % 16;
    assert n == 16 * (n / 0x10) + n % 16;
  }

  lemma LineRoundTrip(id: ushort, undefinedId: ushort)
    ensures LineId(Line(id), undefinedId) == id
  {
    hide HexDigit, HexValue, IsHex, ScanHex;
    var n := id as int;
    HexParts(n);
    HexRoundTrip(n / 0x1000);
    HexRoundTrip(n / 0x100 % 16);
    HexRoundTrip(n / 0x10 % 16);
    HexRoundTrip(n % 16);
    FourDigits(HexDigit(n / 0x1000), HexDigit(n / 0x100 % 16), HexDigit(n / 0x10 % 16), HexDigit(n % 16));
    assert Line(id)[..4] == [HexDigit(n / 0x1000), HexDigit(n / 0x100 % 16), HexDigit(n / 0x10 % 16), HexDigit(n % 16)];
  }

  lemma {:induction false} BlanksSkipped(blanks: string, s: string)
    requires forall k :: 0 <= k < |blanks| ==> blanks[k] as int in {9, 10, 11, 12, 13, 32}
    requires s != "" && !IsBlank(s[0])
    ensures AfterBlanks(blanks + s) == s
    decreases |blanks|
  {
    if blanks == "" {
      assert blanks + s == s;
    } else {
      assert (blanks + s)[1..] == blanks[1..] + s && (blanks + s)[0] == blanks[0];
      BlanksSkipped(blanks[1..], s);
    }
  }

  function WithoutPrefix(u: string): string
  {
    if |u| >= 2 && u[0] == '0' && (u[1] == 'x' || u[1] == 'X') then u[2..] else u
  }

  lemma NoPrefix(prefix: string, digits: string)
    requires prefix in {"", "0x", "0X"} && digits != "" && forall k :: 0 <= k < |digits| ==> IsHex(digits[k])
    ensures var u := prefix + digits;
            && u != "" && !IsBlank(u[0]) && u[0] != '-' && u[0] != '+'
            && WithoutPrefix(u) == digits
  {
    var u := prefix + digits;
    if prefix == "" {
      assert u == digits;
    } else {
      assert u[2..] == digits && u[0] == '0';
    }
  }

  lemma ScanSigned(s: string, u: string, digits: string)
    requires u != "" && u[0] != '-' && u[0] != '+' && WithoutPrefix(u) == digits && digits != "" && IsHex(digits[0])
    ensures AfterBlanks(s) == u ==> ScanHex(s) == Some(HexNumber(digits, 0))
    ensures AfterBlanks(s) == ['+'] + u ==> ScanHex(s) == Some(HexNumber(digits, 0))
    ensures AfterBlanks(s) == ['-'] + u ==> ScanHex(s) == Some(0 - HexNumber(digits, 0))
  {
    hide HexNumber, IsHex, AfterBlanks;
    assert (['+'] + u)[1..] == u && (['-'] + u)[1..] == u;
  }

  /** Some white space, a sign or none, a prefix or none, and hexadecimal digits of either case are read as
      the number they stand for. */
  lemma ScanReads(blanks: string, sign: string, prefix: string, digits: string)
    requires forall k :: 0 <= k < |blanks| ==> blanks[k] as int in {9, 10, 11, 12, 13, 32}
    requires (sign == "" || sign == ['-'] || sign == ['+']) && prefix in {"", "0x", "0X"} && digits != ""
    requires forall k :: 0 <= k < |digits| ==> IsHex(digits[k])
    ensures ScanHex(blanks + (sign + (prefix + digits)))
      == Some(if sign == ['-'] then 0 - HexNumber(digits, 0) else HexNumber(digits, 0))
  {
    hide HexNumber, IsHex, AfterBlanks, ScanHex;
    var u := prefix + digits;
    NoPrefix(prefix, digits);
    ScanSigned(blanks + (sign + u), u, digits);
    if sign == "" {
      assert sign + u == u;
    }
    BlanksSkipped(blanks, sign + u);
  }

  /** A line as it is written: the four hexadecimal digits of the id in lower case, the highest first. */
  lemma LineWritten(id: ushort)
    ensures var line, digits := Line(id), "0123456789abcdef";
            && |line| == 5 && line[4] == '\n'
            && exists a, b, c, d :: 0 <= a < 16 && 0 <= b < 16 && 0 <= c < 16 && 0 <= d < 16
                 && line[..4] == [digits[a], digits[b], digits[c], digits[d]]
                 && id as int == 4096 * a + 256 * b + 16 * c + d
  {
    var n, digits := id as int, "0123456789abcdef";
    HexParts(n);
    var (a, b, c, d) := (n / 0x1000, n / 0x100 % 16, n / 0x10 % 16, n % 16);
    assert Line(id)[..4] == [digits[a], digits[b], digits[c], digits[d]];
  }

  lemma {:induction false} LinesAt(ids: seq<ushort>, i: nat)
    requires i < |ids|
    ensures Lines(ids)[5 * i..5 * i + 5] == Line(ids[i])
    decreases |ids|
  {
    var n := |ids| - 1;
    if i == n {
      assert Lines(ids)[5 * n..] == Line(ids[n]);
    } else {
      LinesAt(ids[..n], i);
      assert Lines(ids)[5 * i..5 * i + 5] == Lines(ids[..n])[5 * i..5 * i + 5];
    }
  }

  lemma {:induction false} LoadedLines(ids: seq<ushort>, records: nat, u: Undefined)
    requires records <= |ids|
    ensures LoadedIds(Lines(ids), records, u) == Elements(ids[..records])
    decreases records
  {
    hide Line, LineId, Lines;
    if records != 0 {
      LoadedLines(ids, records - 1, u);
      LinesAt(ids, records - 1);
      LineRoundTrip(ids[records - 1], u.id(records - 1));
      assert ids[..records] == ids[..records - 1] + [ids[records - 1]];
    }
  }

  function Elements(ids: seq<ushort>): set<ushort>
  {
    set id | id in ids
  }

  /** Loading what was saved gives back exactly the ids. */
  lemma SavedFileRestores(ids: set<ushort>, u: Undefined)
    ensures FileIds(Present(Lines(Ascending(ids))), u) == ids
  {
    var s := Ascending(ids);
    AscendingElements(ids);
    hide Ascending, Lines, Elements;
    LoadedLines(s, |s|, u);
    assert s[..|s|] == s;
  }

  lemma AscendingElements(ids: set<ushort>)
    ensures Elements(Ascending(ids)) == ids
  {
    hide IdsBelow, Ascending;
    AscendingContents(ids);
  }

  lemma NoLines()
    ensures Lines([]) == ""
  {
  }

  lemma LinesNext(ids: seq<ushort>, i: nat)
    requires i < |ids|
    ensures Lines(ids[..i + 1]) == Lines(ids[..i]) + Line(ids[i])
  {
    assert ids[..i + 1][..i] == ids[..i];
  }

  // ----- the list as a value

  datatype Registry = Registry(pagers: map<ushort, PagerState>, dirty: bool, file: File)

  function Added(r: Registry, id: ushort, state: PagerState): Registry
  {
    if id in r.pagers then r else r.(pagers := r.pagers[id := state], dirty := true)
  }

  function Removed(r: Registry, id: ushort): Registry
  {
    if id !in r.pagers then r else r.(pagers := r.pagers - {id}, dirty := true)
  }

  function WithNew(pagers: map<ushort, PagerState>, ids: set<ushort>, undefinedTime: ushort): map<ushort, PagerState>
  {
    pagers + map id | id in ids :: PagerState(0, 0, undefinedTime)
  }

  lemma NoNewer(pagers: map<ushort, PagerState>, undefinedTime: ushort)
    ensures WithNew(pagers, {}, undefinedTime) == pagers
  {
  }

  lemma NewerPager(pagers: map<ushort, PagerState>, ids: set<ushort>, id: ushort, undefinedTime: ushort)
    ensures WithNew(pagers, ids + {id}, undefinedTime)
      == WithNew(pagers, ids, undefinedTime)[id := PagerState(0, 0, undefinedTime)]
  {
  }

  /** A loaded id gets a new pager, also when the list already had one. */
  function Loaded(r: Registry, u: Undefined): Registry
  {
    r.(pagers := WithNew(r.pagers, FileIds(r.file, u), u.time))
  }

  /** How the storage behaves during one save: whether the file opens, how many whole lines get
      written, and how much of the line at which writing fails. */
  datatype Storage = Storage(opens: bool, lines: nat, rest: nat)

  predicate Works(storage: Storage, ids: seq<ushort>)
  {
    storage.opens && |ids| <= storage.lines
  }

  function Saved(file: File, ids: seq<ushort>, storage: Storage): File
    requires storage.rest < 5
  {
    if !storage.opens then file
    else if |ids| <= storage.lines then Present(Lines(ids))
    else Present(Lines(ids[..storage.lines]) + Line(ids[storage.lines])[..storage.rest])
  }

  /** The flag is cleared whether or not the save succeeded. */
  function Looped(r: Registry, storage: Storage): Registry
    requires storage.rest < 5
  {
    if r.dirty then r.(file := Saved(r.file, Ascending(r.pagers.Keys), storage), dirty := false) else r
  }

  /** The file holds the ascending lines of the map; an absent file stands for no pagers. */
  predicate Matches(r: Registry)
  {
    match r.file
    case Absent => r.pagers == map[]
    case Present(content) => content == Lines(Ascending(r.pagers.Keys))
  }

  predicate Synced(r: Registry)
  {
    r.dirty || Matches(r)
  }

  // ----- the class

  class PagerList {
    var pagers: map<ushort, Pager>
    var update_fs_required: bool
    var file: File

    constructor (file: File)
      ensures Valid() && State() == Registry(map[], false, file)
    {
      pagers := map[];
      update_fs_required := false;
      this.file := file;
    }

    ghost predicate Valid()
      reads this, pagers.Values
    {
      forall id :: id in pagers ==> pagers[id].device_id == id
    }

    ghost function State(): Registry
      reads this, pagers.Values
    {
      Registry(map id | id in pagers :: pagers[id].State(), update_fs_required, file)
    }

    lemma StateFields()
      requires Valid()
      ensures State().file == file && State().dirty == update_fs_required
    {
    }

    lemma StateKeys()
      requires Valid()
      ensures State().pagers.Keys == pagers.Keys
    {
    }

    lemma StateAt(id: ushort)
      requires Valid() && id in pagers
      ensures id in State().pagers && State().pagers[id] == pagers[id].State()
    {
    }

    /** Changing one pager of the list changes its entry and no other. */
    twostate lemma OnlyChanged(pager: Pager)
      requires old(Valid()) && Valid() && pagers == old(pagers) && update_fs_required == old(update_fs_required)
      requires file == old(file) && pager.device_id in pagers && pagers[pager.device_id] == pager
      requires forall id :: id in pagers && id != pager.device_id ==> pagers[id].State() == old(pagers[id].State())
      ensures State() == old(State()).(pagers := old(State()).pagers[pager.device_id := pager.State()])
    {
    }

    predicate PagerExists(id: ushort)
      reads this
    {
      id in pagers
    }

    method AddPager(pager: Pager) returns (added: bool)
      requires Valid()
      modifies this
      ensures Valid() && added == (pager.device_id !in old(pagers))
      ensures pagers == if added then old(pagers)[pager.device_id := pager] else old(pagers)
      ensures State() == Added(old(State()), pager.device_id, pager.State())
    {
      if PagerExists(pager.device_id) {
        return false;
      }
      pagers := pagers[pager.device_id := pager];
      update_fs_required := true;
      return true;
    }

    method RemovePager(id: ushort) returns (removed: bool)
      requires Valid()
      modifies this
      ensures Valid() && removed == (id in old(pagers))
      ensures State() == Removed(old(State()), id)
    {
      if !PagerExists(id) {
        return false;
      }
      pagers := pagers - {id};
      update_fs_required := true;
      return true;
    }

    method LoadFs(u: Undefined)
      requires Valid()
      modifies this
      ensures Valid() && State() == Loaded(old(State()), u)
      ensures forall id :: id in pagers ==> (id in old(pagers) && pagers[id] == old(pagers)[id]) || fresh(pagers[id])
    {
      hide LineId, WithNew, State;
      ghost var before := State();
      NoNewer(before.pagers, u.time);
      StateFields();
      if file.Absent? {
        assert FileIds(file, u) == {};
        return;
      }
      var content := file.content;
      for i := 0 to |content| / 5
        invariant Valid() && file == Present(content)
        invariant State() == before.(pagers := WithNew(before.pagers, LoadedIds(content, i, u), u.time))
        invariant forall id :: id in pagers ==>
          (id in old(pagers) && pagers[id] == old(pagers)[id]) || fresh(pagers[id])
      {
        var id := LineId(content[5 * i..5 * i + 5], u.id(i));
        NewerPager(before.pagers, LoadedIds(content, i, u), id, u.time);
        Renew(id, u.time);
      }
    }

    method Renew(id: ushort, undefinedTime: ushort)
      requires Valid()
      modifies this`pagers
      ensures Valid() && State() == old(State()).(pagers := old(State()).pagers[id := PagerState(0, 0, undefinedTime)])
      ensures id in pagers && fresh(pagers[id]) && pagers == old(pagers)[id := pagers[id]]
    {
      var pager := new Pager(id, undefinedTime);
      pagers := pagers[id := pager];
    }

    method UpdateFs(storage: Storage)
      requires Valid() && storage.rest < 5
      modifies this`file
      ensures file == Saved(old(file), Ascending(pagers.Keys), storage)
    {
      if !storage.opens {
        return;
      }
      file := Present("");
      var ids := Ascending(pagers.Keys);
      AscendingContents(pagers.Keys);
      hide Ascending, Line, Lines;
      assert Lines(ids[..0]) == "" by { NoLines(); }
      for i := 0 to |ids|
        invariant i <= storage.lines && file == Present(Lines(ids[..i]))
      {
        var line := Line(pagers[ids[i]].device_id);
        if i == storage.lines {
          file := Present(file.content + line[..storage.rest]);
          return;
        }
        LinesNext(ids, i);
        file := Present(file.content + line);
      }
      assert ids[..|ids|] == ids;
    }

    method Loop(storage: Storage)
      requires Valid() && storage.rest < 5
      modifies this`file, this`update_fs_required
      ensures Valid() && State() == Looped(old(State()), storage)
    {
      assert State().pagers.Keys == pagers.Keys;
      if update_fs_required {
        UpdateFs(storage);
        update_fs_required := false;
      }
    }
  }

  // ----- runs

  datatype Operation =
    | Add(id: ushort, state: PagerState)
    | Remove(id: ushort)
    | Load
    | Loop(storage: Storage)

  predicate Performable(op: Operation)
  {
    op.Loop? ==> op.storage.rest < 5
  }

  function After(r: Registry, op: Operation, u: Undefined): Registry
    requires Performable(op)
  {
    match op
    case Add(id, state) => Added(r, id, state)
    case Remove(id) => Removed(r, id)
    case Load => Loaded(r, u)
    case Loop(storage) => Looped(r, storage)
  }

  lemma NoIds()
    ensures Ascending({}) == []
  {
    NoIdsBelow(0x1_0000);
  }

  lemma {:induction false} NoIdsBelow(n: nat)
    requires n <= 0x1_0000
    ensures IdsBelow({}, n) == []
    decreases n
  {
    if n != 0 {
      NoIdsBelow(n - 1);
    }
  }

  lemma MatchingFileRestores(r: Registry, u: Undefined)
    requires Matches(r)
    ensures FileIds(r.file, u) == r.pagers.Keys
  {
    SavedFileRestores(r.pagers.Keys, u);
  }

  /** A load from the file that matches the map leaves its keys as they are. */
  lemma LoadKeepsMatch(r: Registry, u: Undefined)
    requires Matches(r)
    ensures Matches(Loaded(r, u))
  {
    MatchingFileRestores(r, u);
    assert Loaded(r, u).pagers.Keys == r.pagers.Keys;
  }

  lemma {:induction false} LinesLength(ids: seq<ushort>, n: nat)
    requires n <= |ids|
    ensures |Lines(ids[..n])| == 5 * n
  {
  }

  /** The save that matters: after a turn of the loop with the flag set, the file matches exactly
      when the storage worked, or could not be opened while it happened to match already. */
  lemma SaveSucceedsExactly(r: Registry, storage: Storage)
    requires r.dirty && storage.rest < 5
    ensures Synced(Looped(r, storage)) <==>
      Works(storage, Ascending(r.pagers.Keys)) || (!storage.opens && Matches(r))
  {
    var ids := Ascending(r.pagers.Keys);
    if storage.opens && storage.lines < |ids| {
      LinesLength(ids, storage.lines);
    }
  }

  lemma FirstLoaded(content: string, ids: seq<ushort>, n: nat, rest: string, u: Undefined)
    requires n <= |ids| && content == Lines(ids) + rest
    ensures LoadedIds(content, n, u) == Elements(ids[..n])
    decreases n
  {
    hide Line, LineId, Lines, Elements;
    if n == 0 {
      NoElements(ids);
    } else {
      FirstLoaded(content, ids, n - 1, rest, u);
      LinesAt(ids, n - 1);
      LineRoundTrip(ids[n - 1], u.id(n - 1));
      SliceOfFront(Lines(ids), rest, 5 * (n - 1), 5 * (n - 1) + 5);
      OneMoreElement(ids, n);
    }
  }

  lemma NoElements(ids: seq<ushort>)
    ensures Elements(ids[..0]) == {}
  {
  }

  lemma OneMoreElement(ids: seq<ushort>, n: nat)
    requires 0 < n <= |ids|
    ensures Elements(ids[..n]) == Elements(ids[..n - 1]) + {ids[n - 1]}
  {
    assert ids[..n] == ids[..n - 1] + [ids[n - 1]];
  }

  lemma SliceOfFront(a: string, b: string, from: nat, to: nat)
    requires from <= to <= |a|
    ensures (a + b)[from..to] == a[from..to]
  {
  }

  /** A save that is cut short: a reboot restores exactly the ids whose lines were written, the lowest ones;
      what was written of the next line is ignored. */
  lemma CutSaveRestores(file: File, ids: set<ushort>, storage: Storage, u: Undefined)
    requires storage.rest < 5 && storage.opens
    ensures var s := Ascending(ids);
            FileIds(Saved(file, s, storage), u) == if storage.lines < |s| then Elements(s[..storage.lines]) else ids
  {
    hide Ascending, Lines, Line;
    var s, n := Ascending(ids), storage.lines;
    if n < |s| {
      var rest := Line(s[n])[..storage.rest];
      FirstLoaded(Lines(s[..n]) + rest, s[..n], n, rest, u);
      assert s[..n][..n] == s[..n];
    } else {
      SavedFileRestores(ids, u);
    }
  }

  /** A pager added, and the file could not be opened: the flag is clear, and a reboot forgets it. */
  lemma FailedSaveForgets(id: ushort, state: PagerState, u: Undefined)
    ensures var r := Looped(Registry(map[id := state], true, Absent), Storage(false, 0, 0));
            !r.dirty && !Matches(r) && id !in Loaded(Registry(map[], false, r.file), u).pagers
  {
    assert id in map[id := state];
  }

  /** With working storage every operation keeps "flag clear means the file matches". */
  lemma OperationKeepsSynced(r: Registry, op: Operation, u: Undefined)
    requires Synced(r) && Performable(op)
    requires op.Loop? ==> Works(op.storage, Ascending(r.pagers.Keys))
    ensures Synced(After(r, op, u))
  {
    match op
    case Add(_, _) =>
    case Remove(_) =>
    case Load =>
      if !r.dirty {
        LoadKeepsMatch(r, u);
      }
    case Loop(storage) =>
      if r.dirty {
        SaveSucceedsExactly(r, storage);
      }
  }

  /** A boot: an empty list loads a file that is absent or was saved from some set of ids. */
  lemma BootIsSynced(ids: set<ushort>, file: File, u: Undefined)
    requires file == Present(Lines(Ascending(ids))) || (file == Absent && ids == {})
    ensures var r := Loaded(Registry(map[], false, file), u);
            r.pagers.Keys == ids && Synced(r)
  {
    SavedFileRestores(ids, u);
    NoIds();
  }

  ghost predicate Run(rs: seq<Registry>, ops: seq<Operation>, u: Undefined)
  {
    |rs| == |ops| + 1 &&
    forall i :: 0 <= i < |ops| ==>
      Performable(ops[i]) && rs[i + 1] == After(rs[i], ops[i], u)
      && (ops[i].Loop? ==> Works(ops[i].storage, Ascending(rs[i].pagers.Keys)))
  }

  /** Over every run with working storage a clear flag means that a reboot restores exactly the
      ids in the list. */
  lemma {:induction false} RunStaysSynced(rs: seq<Registry>, ops: seq<Operation>, u: Undefined, i: nat)
    requires Run(rs, ops, u) && Synced(rs[0]) && i < |rs|
    ensures Synced(rs[i])
    ensures !rs[i].dirty ==> FileIds(rs[i].file, u) == rs[i].pagers.Keys
    decreases i
  {
    if i != 0 {
      RunStaysSynced(rs, ops, u, i - 1);
      assert rs[i - 1 + 1] == After(rs[i - 1], ops[i - 1], u);
      OperationKeepsSynced(rs[i - 1], ops[i - 1], u);
    }
    if !rs[i].dirty {
      MatchingFileRestores(rs[i], u);
    }
  }

  /** What the operations so far say about an id: it was added or loaded, and not removed since. */
  predicate Listed(rs: seq<Registry>, ops: seq<Operation>, u: Undefined, i: nat, id: ushort)
    requires i <= |ops| && i < |rs|
    decreases i
  {
    if i == 0 then id in rs[0].pagers
    else
      var before := Listed(rs, ops, u, i - 1, id);
      match ops[i - 1]
      case Add(n, _) => n == id || before
      case Remove(n) => n != id && before
      case Load => id in FileIds(rs[i - 1].file, u) || before
      case Loop(_) => before
  }

  /** Over every run with working storage the list holds exactly the ids that were added or loaded and not
      removed since; with a clear flag so does what a reboot restores. */
  lemma {:induction false} RunLists(rs: seq<Registry>, ops: seq<Operation>, u: Undefined, i: nat, id: ushort)
    requires Run(rs, ops, u) && Synced(rs[0]) && i < |rs|
    ensures id in rs[i].pagers <==> Listed(rs, ops, u, i, id)
    ensures !rs[i].dirty ==> (id in FileIds(rs[i].file, u) <==> Listed(rs, ops, u, i, id))
    decreases i
  {
    hide FileIds, Ascending, Saved;
    RunStaysSynced(rs, ops, u, i);
    if i != 0 {
      RunLists(rs, ops, u, i - 1, id);
      assert rs[i - 1 + 1] == After(rs[i - 1], ops[i - 1], u);
    }
  }
}
