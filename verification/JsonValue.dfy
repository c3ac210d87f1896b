/** The values of a JSON document (pagers-server/json/ArduinoJson.h), without floats and raw JSON. An
    integer remembers whether it is stored as signed or unsigned. */
module JsonValue {
  const INT64_MIN: int := -0x8000_0000_0000_0000
  const INT64_MAX: int := 0x7FFF_FFFF_FFFF_FFFF
  const UINT64_MAX: int := 0xFFFF_FFFF_FFFF_FFFF

  datatype Value =
    | Null
    | Bool(b: bool)
    | Signed(i: int)
    | Unsigned(u: nat)
    | Str(s: string)
    | Arr(elements: seq<Value>)
    | Obj(members: seq<Member>)

  datatype Member = Member(key: string, value: Value)

  datatype Error = EmptyInput | IncompleteInput | InvalidInput | TooDeep | NoMemory | FloatNotModelled

  predicate Stored(v: Value)
  {
    match v
    case Signed(i) => INT64_MIN <= i <= INT64_MAX
    case Unsigned(u) => u <= UINT64_MAX
    case Arr(elements) => forall k :: 0 <= k < |elements| ==> Stored(elements[k])
    case Obj(members) => forall k :: 0 <= k < |members| ==> Stored(members[k].value)
    case _ => true
  }

  /** How deep arrays and objects nest: 0 for a value that is neither. */
  function Depth(v: Value): nat
  {
    match v
    case Arr(elements) => 1 + DepthOfAll(elements)
    case Obj(members) => 1 + DepthOfMembers(members)
    case _ => 0
  }

  function DepthOfAll(vs: seq<Value>): (d: nat)
    ensures forall k :: 0 <= k < |vs| ==> Depth(vs[k]) <= d
  {
    if vs == [] then 0
    else
      var rest := DepthOfAll(vs[1..]);
      if Depth(vs[0]) <= rest then rest else Depth(vs[0])
  }

  function DepthOfMembers(ms: seq<Member>): (d: nat)
    ensures forall k :: 0 <= k < |ms| ==> Depth(ms[k].value) <= d
  {
    if ms == [] then 0
    else
      var rest := DepthOfMembers(ms[1..]);
      if Depth(ms[0].value) <= rest then rest else Depth(ms[0].value)
  }

  /** The same number, stored the way the parsers store it. */
  function Normal(v: Value): Value
  {
    match v
    case Signed(i) => if i < 0 then v else Unsigned(i)
    case Arr(elements) => Arr(NormalAll(elements))
    case Obj(members) => Obj(NormalMembers(members))
    case _ => v
  }

  function NormalAll(vs: seq<Value>): seq<Value>
  {
    if vs == [] then [] else [Normal(vs[0])] + NormalAll(vs[1..])
  }

  function NormalMembers(ms: seq<Member>): (r: seq<Member>)
    ensures |r| == |ms| && forall k :: 0 <= k < |ms| ==> r[k].key == ms[k].key
  {
    if ms == [] then [] else [Member(ms[0].key, Normal(ms[0].value))] + NormalMembers(ms[1..])
  }

  /** Keys are C strings: what a NUL follows is not part of them. */
  predicate KeysOk(ms: seq<Member>)
  {
    && (forall k :: 0 <= k < |ms| ==> '\0' !in ms[k].key)
    && (forall j, k :: 0 <= j < k < |ms| ==> ms[j].key != ms[k].key)
  }

  /** Values that survive a round trip: the keys of every object are distinct and free of NULs. */
  predicate WellKeyed(v: Value)
  {
    match v
    case Arr(elements) => forall k :: 0 <= k < |elements| ==> WellKeyed(elements[k])
    case Obj(members) => KeysOk(members) && forall k :: 0 <= k < |members| ==> WellKeyed(members[k].value)
    case _ => true
  }
}
