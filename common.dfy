/** Shared vocabulary: optional values, the outcome of a Python call that may
    raise, and the string search both core files rely on. */
module Common {

  /** Python's `None` or a value. */
  datatype Option<+T> = None | Some(value: T)

  /** The outcome of a call that may raise: its value, or an exception whose
      `str(e)` is `message`. */
  datatype Try<+T> = Ok(value: T) | Raise(message: string)

  /** `s.rfind(c)`: the index of the last occurrence of `c` in `s`, or None
      where Python returns -1. */
  function RFind(s: string, c: char): (r: Option<nat>)
    ensures r.None? <==> c !in s
    ensures r.Some? ==> r.value < |s| && s[r.value] == c && c !in s[r.value + 1..]
    decreases |s|
  {
    if |s| == 0 then None
    else if s[|s| - 1] == c then Some(|s| - 1)
    else
      var init := s[..|s| - 1];
      assert s == init + [s[|s| - 1]];
      var r := RFind(init, c);
      if r.Some? then
        assert s[r.value + 1..] == init[r.value + 1..] + [s[|s| - 1]];
        r
      else r
  }

  /** An occurrence of `c` with no later one is the one `rfind` returns. */
  lemma RFindLast(s: string, c: char)
    ensures forall d :: 0 <= d < |s| && s[d] == c && c !in s[d + 1..] ==> RFind(s, c) == Some(d)
  {
  }
}
