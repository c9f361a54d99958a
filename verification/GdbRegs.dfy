/**
  The 'g' and 'G' commands: all registers and the pc as hexadecimal text, and
  back.
*/
module GdbRegs {
  import opened Machine
  import opened GdbPacket

  const REG_BYTES := 32 * 8
  const PC_BYTES := 8
  const CAPITAL_G: Byte := 0x47
  const OK_REPLY: Text := [0x4F, 0x4B]            // "OK"
  const ERROR_REPLY: Text := [0x45, 0x30, 0x32]   // "E02"
  const FAULT_REPLY: Text := [0x45, 0x30, 0x39]   // "E09"

  /** Two digits for each byte, high one first. */
  function Hex(b: seq<Byte>): Text {
    if b == [] then [] else [HexChar(b[0] / 16), HexChar(b[0])] + Hex(b[1..])
  }

  /** The packet buffer as a C string: zero past its end. */
  function At(t: Text, pos: nat): Byte {
    if pos < |t| then t[pos] else 0
  }

  /** What reading `n` bytes of hexadecimal leaves in memory, where it stops, and
      whether it was all there with nothing behind it. */
  datatype Reading = Reading(bytes: seq<Byte>, pos: nat, ok: bool)

  function Decode(t: Text, pos: nat, n: nat, done: seq<Byte>): (r: Reading)
    requires |done| <= n
    ensures |r.bytes| == n
    decreases n - |done|
  {
    if |done| == n then Reading(done, pos, At(t, pos) == 0)
    else
      match HexValue(At(t, pos))
      case None => Reading(done + Zeros(n - |done|), pos, false)
      case Some(hi) =>
        match HexValue(At(t, pos + 1))
        case None => Reading(done + Zeros(n - |done|), pos + 1, false)
        case Some(lo) => Decode(t, pos + 2, n, done + [16 * hi + lo])
  }

  // ------------------------------------------------------------------ methods

  /** Read one hexadecimal digit at `pos`. */
  method RcvHexDigit(t: Text, pos: nat) returns (ok: bool, digit: nat, pos': nat)
    ensures ok == HexValue(At(t, pos)).Some?
    ensures ok ==> digit == HexValue(At(t, pos)).value && pos' == pos + 1
    ensures !ok ==> pos' == pos
  {
    var ch := At(t, pos);
    ok, digit, pos' := true, 0, pos + 1;
    if 0x30 <= ch && ch <= 0x39 {
      digit := ch - 0x30;
    } else if 0x41 <= ch && ch <= 0x46 {
      digit := ch - 0x41 + 10;
    } else if 0x61 <= ch && ch <= 0x66 {
      digit := ch - 0x61 + 10;
    } else {
      ok, pos' := false, pos;
    }
  }

  /** Zero `bytes` bytes of memory, then fill them from the text.  `p` is what can
      be accessed from the address on: if that is less, zeroing faults and nothing
      is read. */
  method RcvHexToMemory(t: Text, pos: nat, p: array<Byte>, bytes: nat) returns (pos': nat, ok: bool)
    modifies p
    ensures bytes <= p.Length ==>
              Reading(p[..bytes], pos', ok) == Decode(t, pos, bytes, []) && p[bytes..] == old(p[bytes..])
    ensures bytes > p.Length ==> p[..] == Zeros(p.Length) && pos' == pos && !ok
  {
    pos' := pos;
    for k := 0 to bytes
      invariant k <= p.Length
      invariant forall i :: 0 <= i < k ==> p[i] == 0
      invariant forall i :: k <= i < p.Length ==> p[i] == old(p[i])
    {
      if k == p.Length {
        ok := false;
        return;
      }
      p[k] := 0;
    }
    var i := 0;
    while i < bytes
      invariant i <= bytes && forall j :: i <= j < bytes ==> p[j] == 0
      invariant forall j :: bytes <= j < p.Length ==> p[j] == old(p[j])
      invariant Decode(t, pos', bytes, p[..i]) == Decode(t, pos, bytes, [])
    {
      var hi, lo;
      assert p[..bytes] == p[..i] + Zeros(bytes - i);
      ok, hi, pos' := RcvHexDigit(t, pos');
      if !ok {
        return;
      }
      ok, lo, pos' := RcvHexDigit(t, pos');
      if !ok {
        return;
      }
      p[i] := 16 * hi + lo;
      assert p[..i + 1] == p[..i] + [16 * hi + lo];
      i := i + 1;
    }
    ok := At(t, pos') == 0;
  }

  /** Append `bytes` bytes in hexadecimal to the reply, or the error reply if fewer
      can be accessed.  `ok` is false where the source aborts, having compared the
      number of bytes with the room left. */
  method ReplyInHex(reply: Text, p: array<Byte>, bytes: nat) returns (ok: bool, r: Text)
    ensures ok <==> |reply| + bytes <= 627
    ensures r == if !ok then reply
                 else if bytes > p.Length then reply + ['E' as int, '0' as int, '9' as int]
                 else reply + Hex(p[..bytes])
  {
    ok, r := |reply| + bytes <= BUFFER_LIMIT, reply;
    if !ok {
      return;
    }
    var copy: seq<Byte> := [];
    for k := 0 to bytes
      invariant k <= p.Length && copy == p[..k]
    {
      if k == p.Length {
        r := reply + FAULT_REPLY;
        return;
      }
      copy := copy + [p[k]];
    }
    var i := 0;
    while i < bytes
      invariant i <= bytes
      invariant r + Hex(copy[i..]) == reply + Hex(copy)
    {
      assert copy[i..][1..] == copy[i + 1..];
      assert r + Hex(copy[i..]) == r + [HexChar(copy[i] / 16), HexChar(copy[i])] + Hex(copy[i + 1..]);
      r := r + [HexChar(copy[i] / 16), HexChar(copy[i])];
      i := i + 1;
    }
    assert Hex(copy[i..]) == [];
  }

  /** What a 'G' packet does, as a function of its text. */
  datatype Update = Update(reg: seq<Byte>, pc: seq<Byte>, reply: Text)

  function SetAll(t: Text): Update {
    var r := Decode(t, 1, REG_BYTES, []);
    var q := Decode(t, r.pos, PC_BYTES, []);
    Update(r.bytes, q.bytes, if r.ok || q.ok then OK_REPLY else ERROR_REPLY)
  }

  class Target {
    const reg: array<Byte>
    const pc: array<Byte>

    constructor ()
      ensures Valid() && fresh(reg) && fresh(pc)
    {
      reg := new Byte[REG_BYTES](_ => 0);
      pc := new Byte[PC_BYTES](_ => 0);
    }

    ghost predicate Valid() { reg.Length == REG_BYTES && pc.Length == PC_BYTES && reg != pc }

    /** 'g': reply with every register and the pc. */
    method SendRegisters() returns (reply: Text)
      requires Valid()
      ensures reply == Hex(reg[..]) + Hex(pc[..])
    {
      hide Hex;
      var ok;
      ok, reply := ReplyInHex([], reg, REG_BYTES);
      assert reg[..REG_BYTES] == reg[..] && pc[..PC_BYTES] == pc[..];
      HexLength(reg[..]);
      ok, reply := ReplyInHex(reply, pc, PC_BYTES);
    }

    /** 'G': set every register and the pc.  The two reads' answers are added up
        and a sum of zero counts as the error. */
    method SetRegisters(t: Text) returns (reply: Text)
      requires Valid()
      modifies reg, pc
      ensures Update(reg[..], pc[..], reply) == SetAll(t)
    {
      var errors := 0;
      var pos, ok := RcvHexToMemory(t, 1, reg, REG_BYTES);
      assert reg[..REG_BYTES] == reg[..];
      errors := errors + if ok then 1 else 0;
      pos, ok := RcvHexToMemory(t, pos, pc, PC_BYTES);
      assert pc[..PC_BYTES] == pc[..];
      errors := errors + if ok then 1 else 0;
      reply := if errors != 0 then OK_REPLY else ERROR_REPLY;
    }
  }

  // --------------------------------------------------------------- round trip

  lemma {:induction false} HexLength(b: seq<Byte>)
    ensures |Hex(b)| == 2 * |b|
  {
    if b != [] {
      HexLength(b[1..]);
    }
  }

  /** Hexadecimal digits only: nothing that could end or restart a frame, or the
      string. */
  lemma {:induction false} HexIsClean(b: seq<Byte>)
    ensures DOLLAR !in Hex(b) && HASH !in Hex(b) && 0 !in Hex(b)
  {
    if b != [] {
      HexIsClean(b[1..]);
    }
  }

  /** Decoding what `Hex` wrote gives it back and stops right behind it. */
  lemma {:induction false} HexDecodes(pre: Text, b: seq<Byte>, post: Text, done: seq<Byte>)
    ensures var t := pre + (Hex(b) + post);
            Decode(t, |pre|, |done| + |b|, done)
            == Reading(done + b, |pre| + 2 * |b|, At(t, |pre| + 2 * |b|) == 0)
    decreases |b|
  {
    var t := pre + (Hex(b) + post);
    if b == [] {
      assert done + b == done;
    } else {
      var two := [HexChar(b[0] / 16), HexChar(b[0])];
      assert t == (pre + two) + (Hex(b[1..]) + post);
      assert At(t, |pre|) == two[0] && At(t, |pre| + 1) == two[1];
      HexRoundTrip(b[0]);
      HexRoundTrip(b[0] / 16);
      HexDecodes(pre + two, b[1..], post, done + [b[0]]);
      assert done + [b[0]] + b[1..] == done + b;
    }
  }

  /** Text that ends early: the bytes it gives whole, then zeros; a digit on its own
      is read and thrown away. */
  lemma ShortTextZeroes(pre: Text, b: seq<Byte>, post: Text, n: nat)
    requires |b| < n
    requires HexValue(At(post, 0)).None? || HexValue(At(post, 1)).None?
    ensures Decode(pre + (Hex(b) + post), |pre|, n, [])
            == Reading(b + Zeros(n - |b|), |pre| + 2 * |b| + (if HexValue(At(post, 0)).None? then 0 else 1), false)
  {
    assert [] + b == b;
    ShortRun(pre, b, post, n, []);
  }

  lemma {:induction false} ShortRun(pre: Text, b: seq<Byte>, post: Text, n: nat, done: seq<Byte>)
    requires |done| + |b| < n
    requires HexValue(At(post, 0)).None? || HexValue(At(post, 1)).None?
    ensures Decode(pre + (Hex(b) + post), |pre|, n, done)
            == Reading(done + b + Zeros(n - |done| - |b|), |pre| + 2 * |b| + (if HexValue(At(post, 0)).None? then 0 else 1), false)
    decreases |b|
  {
    var t := pre + (Hex(b) + post);
    if b == [] {
      assert t == pre + post && done + b == done;
      assert At(t, |pre|) == At(post, 0) && At(t, |pre| + 1) == At(post, 1);
    } else {
      var two := [HexChar(b[0] / 16), HexChar(b[0])];
      assert t == (pre + two) + (Hex(b[1..]) + post);
      assert At(t, |pre|) == two[0] && At(t, |pre| + 1) == two[1];
      HexRoundTrip(b[0]);
      HexRoundTrip(b[0] / 16);
      ShortRun(pre + two, b[1..], post, n, done + [b[0]]);
      assert done + [b[0]] + b[1..] == done + b;
    }
  }

  /** The registers sent by 'g', put in a 'G' packet and sent back, are received
      whole and restore every register and the pc, whatever they held meanwhile;
      the reply is OK. */
  lemma RegistersComeBack(reg: seq<Byte>, pc: seq<Byte>, rest: Text)
    requires |reg| == REG_BYTES && |pc| == PC_BYTES
    ensures var packet := [CAPITAL_G] + (Hex(reg) + Hex(pc));
            && Hunt(Frame(packet) + rest) == Got(packet, [PLUS], rest)
            && SetAll(packet) == Update(reg, pc, OK_REPLY)
  {
    var packet := [CAPITAL_G] + (Hex(reg) + Hex(pc));
    HexIsClean(reg);
    HexIsClean(pc);
    HexLength(reg);
    HexLength(pc);
    SentIsReceived(packet, rest);
    HexDecodes([CAPITAL_G], reg, Hex(pc), []);
    assert [] + reg == reg;
    var front := [CAPITAL_G] + Hex(reg);
    assert packet == front + (Hex(pc) + []);
    HexDecodes(front, pc, [], []);
    assert [] + pc == pc;
  }

  // ----------------------------------------------------------- when G says OK

  /** How many hexadecimal digits follow one another from `pos`. */
  function Digits(t: Text, pos: nat): nat
    decreases |t| - pos
  {
    if pos < |t| && HexValue(t[pos]).Some? then 1 + Digits(t, pos + 1) else 0
  }

  /** Reading n bytes takes 2n digits, or as many as there are. */
  lemma {:induction false} DecodeTakes(t: Text, pos: nat, n: nat, done: seq<Byte>)
    requires |done| <= n
    ensures var r, want := Decode(t, pos, n, done), 2 * (n - |done|);
            if Digits(t, pos) >= want
            then r.pos == pos + want && Digits(t, r.pos) == Digits(t, pos) - want && r.ok == (At(t, r.pos) == 0)
            else r.pos == pos + Digits(t, pos) && Digits(t, r.pos) == 0 && !r.ok
    decreases n - |done|
  {
    if |done| < n && Digits(t, pos) >= 2 {
      var hi, lo := HexValue(At(t, pos)).value, HexValue(At(t, pos + 1)).value;
      DecodeTakes(t, pos + 2, n, done + [16 * hi + lo]);
    }
  }

  lemma {:induction false} DigitsInside(t: Text, pos: nat)
    requires pos <= |t|
    ensures pos + Digits(t, pos) <= |t|
    decreases |t| - pos
  {
    if pos < |t| && HexValue(t[pos]).Some? {
      DigitsInside(t, pos + 1);
    }
  }

  /** The reply to a 'G' packet is OK exactly when the text is hexadecimal
      throughout and holds the registers and the pc, or the registers alone: in
      the second case the pc has been cleared, and the reply does not tell. */
  lemma ReplyIsOkIff(t: Text)
    requires t != [] && 0 !in t
    ensures SetAll(t).reply ==
              if Digits(t, 1) == |t| - 1 && (|t| - 1 == 2 * (256 + 8) || |t| - 1 == 2 * 256)
              then ['O' as int, 'K' as int] else ['E' as int, '0' as int, '2' as int]
    ensures |t| - 1 == 2 * 256 ==> SetAll(t).pc == Zeros(8)
  {
    DecodeTakes(t, 1, REG_BYTES, []);
    var r := Decode(t, 1, REG_BYTES, []);
    DecodeTakes(t, r.pos, PC_BYTES, []);
    DigitsInside(t, 1);
    if |t| - 1 == 2 * REG_BYTES {
      PcStaysZero(t, r.pos);
    }
  }

  /** Without a digit to read nothing but zeros is left. */
  lemma PcStaysZero(t: Text, pos: nat)
    ensures Digits(t, pos) == 0 ==> Decode(t, pos, PC_BYTES, []).bytes == Zeros(PC_BYTES)
  {
    assert [] + Zeros(PC_BYTES) == Zeros(PC_BYTES);
  }
}
