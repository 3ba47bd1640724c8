/** The variable-length-code LZW of Appendix F of the GIF89a specification. */
module GifLzw {
  import opened Shifts
  import opened InflateBits

  type Str = seq<nat>

  const MAXCODES := 4096

  /** The string table, the code before, the code width, and whether a clear code was seen. */
  datatype State = State(cs: nat, table: seq<Str>, last: int, width: nat, started: bool)

  function Clear(cs: nat): nat { Shl(1, cs) }

  /** The table after a clear code; the two special codes have no string of their own. */
  function Initial(cs: nat, started: bool): State {
    State(cs, seq(Clear(cs) + 2, i requires 0 <= i < Clear(cs) + 2 => [i % 256]), -1, cs + 1, started)
  }

  predicate IsString(st: State, code: int) { 0 <= code < |st.table| && code != Clear(st.cs) && code != Clear(st.cs) + 1 }

  ghost predicate Ok(st: State) {
    && |st.table| >= Clear(st.cs) + 2 && st.width > st.cs && (st.last == -1 || IsString(st, st.last))
    && forall i | 0 <= i < |st.table| :: st.table[i] != []
  }

  datatype Turn = Emit(s: Str, next: State) | Restart(next: State) | Finish | Bad

  /** The string that the code before and this one add to the table. */
  function NewString(st: State, code: nat): Str
    requires Ok(st) && st.last >= 0 && code <= |st.table|
  {
    st.table[st.last] + [if code < |st.table| then st.table[code][0] else st.table[st.last][0]]
  }

  /** Codes get wider when the table has filled all of the present width. */
  function Widened(st: State): State {
    if Low(|st.table|, st.width) == 0 && |st.table| < MAXCODES then st.(width := st.width + 1) else st
  }

  /** What one code means. */
  function Next(st: State, code: nat): (t: Turn)
    requires Ok(st)
    ensures t.Emit? || t.Restart? ==> Ok(t.next) && t.next.cs == st.cs
  {
    if code == Clear(st.cs) then Restart(Initial(st.cs, true))
    else if code == Clear(st.cs) + 1 then Finish
    else if code > |st.table| || !st.started then Bad
    else if st.last < 0 then
      if code == |st.table| then Bad else Emit(st.table[code], Widened(st.(last := code)))
    else if |st.table| >= MAXCODES then Bad
    else
      var table := st.table + [NewString(st, code)];
      Emit(table[code], Widened(st.(table := table, last := code)))
  }

  datatype Drawn = Drawn(out: Str, ok: bool)

  /** The symbols of a list of codes. */
  function Decoded(st: State, codes: seq<nat>): Drawn
    requires Ok(st)
    decreases |codes|
  {
    if codes == [] then Drawn([], true)
    else
      match Next(st, codes[0])
      case Emit(s, next) => var more := Decoded(next, codes[1..]); Drawn(s + more.out, more.ok)
      case Restart(next) => Decoded(next, codes[1..])
      case Finish => Drawn([], true)
      case Bad => Drawn([], false)
  }

  /** The symbols of a bit stream, from position `p` on: codes of the width of the moment, up
      to the end code or the last whole code. */
  function Raster(d: Bytes, p: nat, st: State): Drawn
    requires Ok(st)
    decreases 8 * |d| - p
  {
    if p + st.width > 8 * |d| then Drawn([], true)
    else
      match Next(st, ReadBits(d, p, st.width))
      case Emit(s, next) => var more := Raster(d, p + st.width, next); Drawn(s + more.out, more.ok)
      case Restart(next) => Raster(d, p + st.width, next)
      case Finish => Drawn([], true)
      case Bad => Drawn([], false)
  }
}
