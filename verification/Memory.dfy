/** What several modules say about bytes in memory, a byte being a char. */
module Memory {
  datatype Option<+T> = None | Some(value: T)

  /** The C string at the start of some bytes: up to the first NUL. */
  function UpToNul(s: string): (t: string)
    ensures '\0' !in t && (t == s <==> '\0' !in s)
  {
    if s == "" || s[0] == '\0' then "" else
      var rest := UpToNul(s[1..]);
      assert s == [s[0]] + s[1..];
      [s[0]] + rest
  }

  lemma {:induction false} UpToNulIs(s: string, t: string)
    requires |t| < |s| && s[..|t|] == t && s[|t|] == '\0' && '\0' !in t
    ensures UpToNul(s) == t
    decreases |t|
  {
    if t != "" {
      assert s[0] == t[0] && s[1..][..|t| - 1] == t[1..];
      UpToNulIs(s[1..], t[1..]);
    }
  }

  /** Memory with some bytes of it replaced. */
  function Splice(memory: string, at: nat, data: string): (m: string)
    requires at + |data| <= |memory|
    ensures |m| == |memory|
  {
    memory[..at] + data + memory[at + |data|..]
  }
}
