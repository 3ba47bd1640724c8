/** The bits of a JPEG scan: bytes without their stuffing, up to a marker, the highest bit of
    each byte first, and zeros behind the end. */
module JpegStream {
  import opened Shifts
  import opened HuffmanCode
  import opened InflateBits
  import opened JpegHuffman
  import opened JpegTable

  /** The bytes from `p` on. A zero byte behind 0xff is stuffing, any other one makes a marker. */
  function Payload(data: Bytes, p: nat): Bytes
    decreases |data| - p
  {
    if p >= |data| then []
    else if data[p] != 0xff then [data[p]] + Payload(data, p + 1)
    else if ByteAt(data, p + 1) == 0 then [0xff] + Payload(data, p + 2)
    else []
  }

  lemma {:induction false} PayloadBytes(data: Bytes, p: nat)
    requires AllBytes(data)
    ensures AllBytes(Payload(data, p))
    decreases |data| - p
  {
    if p < |data| {
      if data[p] != 0xff { PayloadBytes(data, p + 1); } else if ByteAt(data, p + 1) == 0 { PayloadBytes(data, p + 2); }
    }
  }

  function BitAt(P: Bytes, i: nat): (b: nat)
    ensures b < 2
  {
    if i / 8 < |P| then Shr(P[i / 8], 7 - i % 8) % 2 else 0
  }

  /** `n` bits from `at` on, as a number whose highest bit comes first. */
  function Window(P: Bytes, at: nat, n: nat): nat
    decreases n
  {
    if n == 0 then 0 else 2 * Window(P, at, n - 1) + BitAt(P, at + n - 1)
  }

  lemma {:induction false} WindowBound(P: Bytes, at: nat, n: nat)
    ensures Window(P, at, n) < Shl(1, n)
    decreases n
  {
    hide BitAt;
    if n > 0 { WindowBound(P, at, n - 1); }
  }

  lemma {:induction false} WindowSplit(P: Bytes, at: nat, m: nat, n: nat)
    ensures Window(P, at, m + n) == Shl(Window(P, at, m), n) + Window(P, at + m, n)
    decreases n
  {
    hide BitAt;
    if n > 0 { WindowSplit(P, at, m, n - 1); }
  }

  /** The first of some bits. */
  lemma {:induction false} WindowShr(P: Bytes, at: nat, n: nat, k: nat)
    ensures Shr(Window(P, at, n + k), k) == Window(P, at, n)
    decreases k
  {
    hide BitAt;
    if k > 0 { WindowShr(P, at, n, k - 1); }
  }

  /** The last of some bits. */
  lemma {:induction false} WindowLow(P: Bytes, at: nat, m: nat, n: nat)
    ensures Low(Window(P, at, m + n), n) == Window(P, at + m, n)
    decreases n
  {
    hide BitAt;
    if n > 0 { WindowLow(P, at, m, n - 1); }
  }

  lemma {:induction false} WindowZeros(P: Bytes, at: nat, n: nat)
    requires at >= 8 * |P|
    ensures Window(P, at, n) == 0
    decreases n
  {
    if n > 0 { WindowZeros(P, at, n - 1); }
  }

  lemma {:induction false} WindowInByte(P: Bytes, v: nat, n: nat)
    requires v < |P| && n <= 8 && P[v] < 256
    ensures Window(P, 8 * v, n) == Shr(P[v], 8 - n)
    decreases n
  {
    if n > 0 {
      WindowInByte(P, v, n - 1);
      assert (8 * v + n - 1) / 8 == v && (8 * v + n - 1) % 8 == n - 1;
      ShrStep(P[v], 8 - n);
    } else {
      ShrEight(P[v]);
    }
  }

  lemma WindowByte(P: Bytes, v: nat)
    requires AllBytes(P)
    ensures Window(P, 8 * v, 8) == ByteAt(P, v)
  {
    hide Window, BitAt;
    if v < |P| { WindowInByte(P, v, 8); } else { WindowZeros(P, 8 * v, 8); }
  }

  // ---------------------------------------------------------------- a buffer of 32 bits

  const TWO32 := 0x1_0000_0000

  /** The first `n` bits of a 32-bit buffer. */
  function Top(buf: nat, n: nat): nat
    requires n <= 32
  {
    Shr(buf, 32 - n)
  }

  /** code_buffer << s */
  function Left(buf: nat, s: nat): nat
    requires s <= 32
  {
    Shl(Low(buf, 32 - s), s)
  }

  /** The buffer that holds `n` bits from `at` on, and zeros behind them. */
  function Held(P: Bytes, at: nat, n: int): nat
    requires n <= 32
  {
    if n <= 0 then 0 else Shl(Window(P, at, n), 32 - n)
  }

  lemma {:induction false} LowShl(x: nat, s: nat, n: nat)
    requires s <= n
    ensures Low(Shl(x, s), n) == Shl(Low(x, n - s), s)
    decreases s
  {
    if s > 0 {
      LowShl(x, s - 1, n - 1);
      assert Shl(x, s) == 2 * Shl(x, s - 1);
    }
  }

  lemma {:induction false} LowShlZero(x: nat, s: nat, n: nat)
    requires n <= s
    ensures Low(Shl(x, s), n) == 0
    decreases n
  {
    if n > 0 {
      LowShlZero(x, s - 1, n - 1);
      assert Shl(x, s) == 2 * Shl(x, s - 1);
    }
  }

  lemma {:induction false} ZeroShifts(n: nat)
    ensures Shl(0, n) == 0 && Shr(0, n) == 0 && Low(0, n) == 0
  {
    if n > 0 { ZeroShifts(n - 1); }
  }

  /** Behind the end of the data the buffer holds as many bits as one likes. */
  lemma HeldPastEnd(P: Bytes, at: nat, n: int)
    requires n <= 32 && at + n >= 8 * |P|
    ensures Held(P, at, n) == Window(P, at, 32)
  {
    hide Window, Shl;
    var m := if n <= 0 then 0 else n;
    WindowSplit(P, at, m, 32 - m);
    WindowZeros(P, at + m, 32 - m);
    if n <= 0 {
      WindowZeros(P, at, 32);
    }
  }

  /** The first bits of the buffer are the next bits of the stream. */
  lemma HeldTop(P: Bytes, at: nat, held: int, n: nat)
    requires held <= 32 && n <= 32 && (n <= held || at + held >= 8 * |P|)
    ensures Top(Held(P, at, held), n) == Window(P, at, n)
  {
    hide Window, Shl, Shr;
    if n <= held {
      if held > 0 {
        ShrAdd(Held(P, at, held), 32 - held, held - n);
        ShrShl(Window(P, at, held), 32 - held);
      } else {
        ZeroShifts(32);
        WindowNone(P, at);
      }
      WindowShr(P, at, n, held - n);
    } else {
      HeldPastEnd(P, at, held);
      WindowShr(P, at, n, 32 - n);
    }
  }

  lemma WindowNone(P: Bytes, at: nat)
    ensures Window(P, at, 0) == 0
  {}

  /** Shifting the buffer goes on in the stream. */
  lemma HeldLeft(P: Bytes, at: nat, held: int, s: nat)
    requires held <= 32 && s <= 32
    ensures Left(Held(P, at, held), s) == Held(P, at + s, held - s)
  {
    hide Window, Shl, Low;
    if held <= 0 {
      ZeroShifts(32 - s);
      ZeroShifts(s);
    } else if s < held {
      LowShl(Window(P, at, held), 32 - held, 32 - s);
      WindowLow(P, at, s, held - s);
      ShlAdd(Window(P, at + s, held - s), 32 - held, s);
    } else {
      LowShlZero(Window(P, at, held), 32 - held, 32 - s);
      ZeroShifts(s);
    }
  }

  /** One more byte in the buffer. */
  lemma HeldByte(P: Bytes, at: nat, held: nat, v: nat)
    requires AllBytes(P) && held <= 24 && at + held == 8 * v
    ensures Held(P, at, held + 8) == Held(P, at, held) + Shl(ByteAt(P, v), 24 - held)
  {
    hide Window, Shl, AllBytes, ByteAt;
    var w := Window(P, at, held);
    WindowSplit(P, at, held, 8);
    WindowByte(P, v);
    ShlSum(Shl(w, 8), ByteAt(P, v), 24 - held);
    ShlAdd(w, 8, 24 - held);
    HeldIs(P, at, held);
    HeldIs(P, at, held + 8);
  }

  lemma HeldIs(P: Bytes, at: nat, n: nat)
    requires n <= 32
    ensures Held(P, at, n) == Shl(Window(P, at, n), 32 - n)
  {
    hide Shl;
    if n == 0 { ZeroShifts(32); }
  }

  lemma HeldBound(P: Bytes, at: nat, held: int)
    requires held <= 32
    ensures Held(P, at, held) < TWO32
  {
    hide Window, Shl;
    Thirtytwo();
    if held > 0 {
      WindowBound(P, at, held);
      ShlOrder(Shl(1, held), Window(P, at, held), 32 - held);
      ShlAdd(1, held, 32 - held);
    }
  }

  lemma Thirtytwo()
    ensures Shl(1, 32) == TWO32
  {
    hide Shl;
    Sixteen();
    ShlAdd(1, 16, 16);
    assert Shl(0x1_0000, 16) == TWO32 by {
      ShlScale(0x1_0000, 16);
    }
  }

  lemma {:induction false} ShlScale(q: nat, n: nat)
    ensures Shl(q, n) == q * Shl(1, n)
  {
    if n > 0 {
      ShlScale(q, n - 1);
      assert 2 * (q * Shl(1, n - 1)) == q * (2 * Shl(1, n - 1));
    }
  }
}
