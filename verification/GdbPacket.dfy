/**
  Packets of the GDB remote serial protocol: `$payload#checksum`, answered by
  '+' or '-'.  `Link.ReceivePacket` and `Link.SendPacket` move characters through
  a fixed buffer; `Hunt` is what reception means as a function of the stream.
*/
module GdbPacket {
  import opened Common
  import opened Machine

  const DOLLAR: Byte := 0x24
  const HASH: Byte := 0x23
  const PLUS: Byte := 0x2B
  const MINUS: Byte := 0x2D

  /** The last index of the input buffer, kept for the terminator. */
  const BUFFER_LIMIT := 33 * 16 + 99

  type Text = seq<Byte>

  // ------------------------------------------------------------- hexadecimal

  function HexChar(v: int): Byte {
    var d := v % 16;
    if d <= 9 then d + 0x30 else d - 10 + 0x61
  }

  /** A digit's value, or None where the source answers -1. */
  function HexValue(ch: Byte): Option<nat> {
    if 0x30 <= ch <= 0x39 then Some(ch - 0x30)
    else if 0x41 <= ch <= 0x46 then Some(ch - 0x41 + 10)
    else if 0x61 <= ch <= 0x66 then Some(ch - 0x61 + 10)
    else None
  }

  /** The transmitted checksum.  An invalid digit counts as minus one: shifted
      and cut to a byte in front, all ones behind. */
  function Transmitted(c1: Byte, c2: Byte): Byte {
    match HexValue(c2)
    case None => 0xFF
    case Some(lo) =>
      match HexValue(c1)
      case None => 0xF0 + lo
      case Some(hi) => 16 * hi + lo
  }

  lemma HexRoundTrip(v: Byte)
    ensures HexValue(HexChar(v)) == Some(v % 16)
    ensures Transmitted(HexChar(v / 16), HexChar(v)) == v
  {
  }

  /** The digits, in either case, and nothing else. */
  lemma HexDigits(ch: Byte, v: nat)
    ensures HexValue(ch) == Some(v) <==>
              v < 16 && (ch == "0123456789abcdef"[v] as int || ch == "0123456789ABCDEF"[v] as int)
  {
  }

  /** What an invalid digit does to the transmitted checksum: -1 is 255 in a byte,
      240 when shifted. */
  lemma BadDigits(c1: Byte, c2: Byte)
    ensures HexValue(c2) == None ==> Transmitted(c1, c2) == 255
    ensures HexValue(c1) == None && HexValue(c2).Some? ==> Transmitted(c1, c2) == 240 + HexValue(c2).value
  {
  }

  function Checksum(t: Text): Byte {
    if t == [] then 0 else (Checksum(t[..|t| - 1]) + t[|t| - 1]) % 256
  }

  lemma NoChecksum()
    ensures Checksum([]) == 0
  {
  }

  lemma ChecksumOneMore(t: Text, ch: Byte)
    ensures Checksum(t + [ch]) == (Checksum(t) + ch) % 256
  {
    assert (t + [ch])[..|t|] == t;
  }

  // --------------------------------------------------------------- receiving

  /** What reception comes to: a payload, the characters answered on the way and
      the input left over; or all input used up while waiting for more. */
  datatype Outcome =
    | Got(payload: Text, acks: Text, rest: Text)
    | Starved(acks: Text)

  function Answering(acks: Text, o: Outcome): Outcome {
    match o
    case Got(p, a, r) => Got(p, acks + a, r)
    case Starved(a) => Starved(acks + a)
  }

  /** Skip to the next '$'. */
  function Hunt(t: Text): Outcome
    decreases |t|
  {
    if t == [] then Starved([])
    else if t[0] == DOLLAR then Body(t[1..], [])
    else Hunt(t[1..])
  }

  /** Inside a frame, `got` received so far.  A '$' starts it afresh; a character
      that no longer fits ends reception, unanswered. */
  function Body(t: Text, got: Text): Outcome
    decreases |t|
  {
    if t == [] then Starved([])
    else if t[0] == HASH then Check(t[1..], got)
    else if |got| >= BUFFER_LIMIT then Got(got, [], t[1..])
    else if t[0] == DOLLAR then Body(t[1..], [])
    else Body(t[1..], got + [t[0]])
  }

  function Check(t: Text, got: Text): Outcome
    decreases |t|
  {
    if |t| < 2 then Starved([])
    else if Checksum(got) == Transmitted(t[0], t[1]) then Got(got, [PLUS], t[2..])
    else Answering([MINUS], Hunt(t[2..]))
  }

  /** The characters a sender puts on the wire for a payload. */
  function Frame(payload: Text): Text {
    var sum := Checksum(payload);
    [DOLLAR] + payload + [HASH, HexChar(sum / 16), HexChar(sum)]
  }

  /** A buffer read as a C string: its characters before the first zero. */
  function UpToZero(t: Text): (s: Text)
    ensures 0 !in s
    ensures 0 !in t ==> s == t
    ensures |s| <= |t| && s == t[..|s|] && (|s| < |t| ==> t[|s|] == 0)
  {
    if t == [] || t[0] == 0 then [] else [t[0]] + UpToZero(t[1..])
  }

  lemma StringStops(t: Text, i: nat)
    requires i <= |UpToZero(t)| && i < |t|
    ensures t[i] != 0 <==> i < |UpToZero(t)|
  {
    if i < |UpToZero(t)| {
      assert UpToZero(t)[i] == t[i];
      assert UpToZero(t)[i] in UpToZero(t);
    }
  }

  // ------------------------------------------------------------------ methods

  class Link {
    var incoming: Text      // what the other side will have sent
    var outgoing: Text      // what has been sent to it
    const inBuf: array<Byte>

    constructor (incoming: Text)
      ensures this.incoming == incoming && outgoing == [] && fresh(inBuf)
      ensures inBuf.Length == BUFFER_LIMIT + 1
    {
      this.incoming := incoming;
      outgoing := [];
      inBuf := new Byte[BUFFER_LIMIT + 1](_ => 0);
    }

    ghost predicate Valid() { inBuf.Length == BUFFER_LIMIT + 1 }

    /** Read the next character; `ok` is false where the source would block. */
    method GetDebugChar() returns (ok: bool, ch: Byte)
      modifies this`incoming
      ensures ok == (old(incoming) != [])
      ensures ok ==> ch == old(incoming)[0] && incoming == old(incoming)[1..]
      ensures !ok ==> incoming == []
    {
      ok, ch := false, 0;
      if incoming != [] {
        ok, ch, incoming := true, incoming[0], incoming[1..];
      }
    }

    method PutDebugChar(ch: Byte)
      modifies this`outgoing
      ensures outgoing == old(outgoing) + [ch]
    {
      outgoing := outgoing + [ch];
    }

    /** Wait for '$'. */
    method AwaitStart() returns (ok: bool)
      modifies this`incoming
      ensures ok ==> Hunt(old(incoming)) == Body(incoming, []) && |incoming| < |old(incoming)|
      ensures !ok ==> Hunt(old(incoming)) == Starved([])
    {
      var ch: Byte := 0;
      ok := true;
      while ch != DOLLAR
        invariant ok
        invariant ch != DOLLAR ==> Hunt(incoming) == Hunt(old(incoming)) && |incoming| <= |old(incoming)|
        invariant ch == DOLLAR ==> Hunt(old(incoming)) == Body(incoming, []) && |incoming| < |old(incoming)|
        decreases |incoming|, ch != DOLLAR
      {
        ok, ch := GetDebugChar();
        if !ok {
          return;
        }
      }
    }

    /** Read a frame's characters into the buffer up to '#', starting over at a
        '$'.  `full` is set when a character did not fit. */
    method ReadBody() returns (ok: bool, full: bool, n: nat, checksum: Byte)
      requires Valid()
      modifies this`incoming, inBuf
      ensures n <= BUFFER_LIMIT && checksum == Checksum(inBuf[..n]) && |incoming| <= |old(incoming)|
      ensures ok && !full ==> Body(old(incoming), []) == Check(incoming, inBuf[..n])
      ensures ok && full ==> Body(old(incoming), []) == Got(inBuf[..n], [], incoming)
      ensures !ok ==> Body(old(incoming), []) == Starved([])
    {
      hide Check, Checksum;
      NoChecksum();
      var ch: Byte;
      full, n, checksum := false, 0, 0;
      ghost var before := incoming;
      ok, ch := GetDebugChar();
      while ok && ch != HASH
        invariant n <= BUFFER_LIMIT && checksum == Checksum(inBuf[..n]) && |incoming| <= |old(incoming)|
        invariant ok ==> before != [] && ch == before[0] && incoming == before[1..]
        invariant ok ==> Body(old(incoming), []) == Body(before, inBuf[..n])
        invariant !ok ==> Body(old(incoming), []) == Starved([])
        decreases |incoming|, ok
      {
        if n >= BUFFER_LIMIT {
          full := true;
          return;
        }
        if ch == DOLLAR {
          n, checksum := 0, 0;
        } else {
          ChecksumOneMore(inBuf[..n], ch);
          checksum := (checksum + ch) % 256;
          inBuf[n] := ch;
          assert inBuf[..n + 1] == inBuf[..n] + [ch];
          n := n + 1;
        }
        before := incoming;
        ok, ch := GetDebugChar();
      }
    }

    /** Read the two checksum digits. */
    method ReadChecksum() returns (ok: bool, xmitcsum: Byte)
      modifies this`incoming
      ensures ok == (|old(incoming)| >= 2)
      ensures ok ==> xmitcsum == Transmitted(old(incoming)[0], old(incoming)[1]) && incoming == old(incoming)[2..]
    {
      var ch1, ch2;
      xmitcsum := 0;
      ok, ch1 := GetDebugChar();
      if ok {
        ok, ch2 := GetDebugChar();
        if ok {
          xmitcsum := Transmitted(ch1, ch2);
        }
      }
    }

    /** Receive one packet into `inBuf[..n]`, followed by a zero. */
    method ReceivePacket() returns (ok: bool, n: nat)
      requires Valid()
      modifies this`incoming, this`outgoing, inBuf
      ensures ok == Hunt(old(incoming)).Got?
      ensures outgoing == old(outgoing) + Hunt(old(incoming)).acks
      ensures ok ==> n <= BUFFER_LIMIT && inBuf[..n] == Hunt(old(incoming)).payload && inBuf[n] == 0
      ensures ok ==> incoming == Hunt(old(incoming)).rest
    {
      hide Hunt, Body, Checksum, Transmitted;
      var again := true;
      n := 0;
      ghost var acks: Text := [];
      while again
        invariant again ==> outgoing == old(outgoing) + acks && Hunt(old(incoming)) == Answering(acks, Hunt(incoming))
        invariant !again ==> n <= BUFFER_LIMIT && outgoing == old(outgoing) + Hunt(old(incoming)).acks
        invariant !again ==> Hunt(old(incoming)) == Got(inBuf[..n], Hunt(old(incoming)).acks, incoming)
        decreases |incoming|, again
      {
        var full, checksum;
        ok := AwaitStart();
        if !ok {
          return;
        }
        ok, full, n, checksum := ReadBody();
        if !ok {
          return;
        }
        again := false;
        if !full {
          var xmitcsum;
          ok, xmitcsum := ReadChecksum();
          if !ok {
            return;
          }
          if checksum != xmitcsum {
            PutDebugChar(MINUS);
            again := true;
            acks := acks + [MINUS];
          } else {
            PutDebugChar(PLUS);
          }
        }
      }
      inBuf[n] := 0;
      ok := true;
    }

    /** Send the buffer's string until the other side answers '+'; `tries` is how often. */
    method SendPacket(payload: Text) returns (ok: bool, tries: nat)
      modifies this`incoming, this`outgoing
      ensures ok <==> PLUS in old(incoming)
      ensures ok ==> tries > 0 && tries <= |old(incoming)| && old(incoming)[tries - 1] == PLUS
                     && PLUS !in old(incoming)[..tries - 1] && incoming == old(incoming)[tries..]
      ensures outgoing == old(outgoing) + Repeat(Frame(UpToZero(payload)), tries)
    {
      hide Frame, UpToZero;
      tries := 0;
      var ch: Byte := 0;
      ok := true;
      while ch != PLUS
        invariant ok && tries <= |old(incoming)| && incoming == old(incoming)[tries..]
        invariant ch != PLUS ==> PLUS !in old(incoming)[..tries]
        invariant ch == PLUS ==> tries > 0 && old(incoming)[tries - 1] == PLUS && PLUS !in old(incoming)[..tries - 1]
        invariant outgoing == old(outgoing) + Repeat(Frame(UpToZero(payload)), tries)
        decreases |incoming|, ch != PLUS
      {
        SendFrame(payload);
        tries := tries + 1;
        ok, ch := GetDebugChar();
        if !ok {
          return;
        }
      }
    }

    /** One frame, character by character, up to the terminating zero. */
    method SendFrame(payload: Text)
      modifies this`outgoing
      ensures outgoing == old(outgoing) + Frame(UpToZero(payload))
    {
      hide UpToZero, Checksum;
      NoChecksum();
      var checksum: Byte := 0;
      PutDebugChar(DOLLAR);
      var i := 0;
      while i < |payload| && payload[i] != 0
        invariant i <= |UpToZero(payload)|
        invariant outgoing == old(outgoing) + [DOLLAR] + payload[..i]
        invariant checksum == Checksum(payload[..i])
      {
        StringStops(payload, i);
        ChecksumOneMore(payload[..i], payload[i]);
        assert payload[..i + 1] == payload[..i] + [payload[i]];
        checksum := (checksum + payload[i]) % 256;
        PutDebugChar(payload[i]);
        i := i + 1;
      }
      if i < |payload| { StringStops(payload, i); }
      PutDebugChar(HASH);
      PutDebugChar(HexChar(checksum / 16));
      PutDebugChar(HexChar(checksum));
    }
  }

  function Repeat(t: Text, n: nat): Text {
    if n == 0 then [] else Repeat(t, n - 1) + t
  }

  /** n copies. */
  lemma {:induction false} RepeatIs(t: Text, n: nat, m: nat)
    ensures Repeat(t, 0) == [] && Repeat(t, 1) == t
    ensures Repeat(t, n + m) == Repeat(t, n) + Repeat(t, m)
    decreases m
  {
    assert Repeat(t, 1) == Repeat(t, 0) + t;
    if m > 0 {
      RepeatIs(t, n, m - 1);
      Regroup(Repeat(t, n), Repeat(t, m - 1), t);
    } else {
      assert Repeat(t, n) + [] == Repeat(t, n);
    }
  }

  // --------------------------------------------------------- what is received

  /** Ordinary characters, few enough to fit. */
  predicate Clean(t: Text, limit: int) {
    DOLLAR !in t && HASH !in t && |t| <= limit
  }

  /** One attempt of the other side: noise, frames given up half-way (each cut
      off by the '$' of the next), then a whole frame with checksum digits. */
  datatype Attempt = Attempt(noise: Text, aborted: seq<Text>, body: Text, c1: Byte, c2: Byte) {
    predicate Valid() {
      && DOLLAR !in noise
      && (forall i :: 0 <= i < |aborted| ==> Clean(aborted[i], BUFFER_LIMIT - 1))
      && Clean(body, BUFFER_LIMIT)
    }

    predicate Good() { Checksum(body) == Transmitted(c1, c2) }

    function Chars(): Text {
      noise + (Starts(aborted) + ([DOLLAR] + body + [HASH, c1, c2]))
    }
  }

  function Starts(aborted: seq<Text>): Text {
    if aborted == [] then [] else [DOLLAR] + aborted[0] + Starts(aborted[1..])
  }

  function AllChars(attempts: seq<Attempt>): Text {
    if attempts == [] then [] else attempts[0].Chars() + AllChars(attempts[1..])
  }

  lemma {:induction false} HuntSkipsNoise(noise: Text, t: Text)
    requires DOLLAR !in noise
    ensures Hunt(noise + t) == Hunt(t)
  {
    if noise == [] {
      assert noise + t == t;
    } else {
      assert (noise + t)[1..] == noise[1..] + t;
      HuntSkipsNoise(noise[1..], t);
    }
  }

  lemma {:induction false} BodyCollects(b: Text, t: Text, got: Text)
    requires Clean(b, BUFFER_LIMIT - |got|)
    ensures Body(b + t, got) == Body(t, got + b)
  {
    if b == [] {
      assert b + t == t && got + b == got;
    } else {
      assert (b + t)[1..] == b[1..] + t;
      assert got + [b[0]] + b[1..] == got + b;
      BodyCollects(b[1..], t, got + [b[0]]);
    }
  }

  lemma {:induction false} HuntSkipsAborted(aborted: seq<Text>, t: Text)
    requires forall i :: 0 <= i < |aborted| ==> Clean(aborted[i], BUFFER_LIMIT - 1)
    requires t != [] && t[0] == DOLLAR
    ensures Hunt(Starts(aborted) + t) == Hunt(t)
  {
    if aborted == [] {
      assert Starts(aborted) + t == t;
    } else {
      var a, more := aborted[0], Starts(aborted[1..]) + t;
      assert Starts(aborted) + t == [DOLLAR] + (a + more);
      assert ([DOLLAR] + (a + more))[1..] == a + more;
      BodyCollects(a, more, []);
      assert [] + a == a;
      assert more[0] == DOLLAR;
      HuntSkipsAborted(aborted[1..], t);
    }
  }

  lemma HuntAttempt(a: Attempt, t: Text)
    requires a.Valid()
    ensures Hunt(a.Chars() + t) == if a.Good() then Got(a.body, [PLUS], t) else Answering([MINUS], Hunt(t))
  {
    var tail := [HASH, a.c1, a.c2] + t;
    var frame := [DOLLAR] + (a.body + tail);
    assert a.Chars() + t == a.noise + (Starts(a.aborted) + frame);
    HuntSkipsNoise(a.noise, Starts(a.aborted) + frame);
    HuntSkipsAborted(a.aborted, frame);
    assert frame[1..] == a.body + tail && frame[0] == DOLLAR;
    assert Hunt(frame) == Body(a.body + tail, []);
    hide Hunt, Body, Starts, Checksum, Transmitted;
    BodyCollects(a.body, tail, []);
    assert [] + a.body == a.body;
    CheckTail(a.c1, a.c2, t, a.body);
  }

  lemma CheckTail(c1: Byte, c2: Byte, t: Text, got: Text)
    ensures Body([HASH, c1, c2] + t, got)
            == if Checksum(got) == Transmitted(c1, c2) then Got(got, [PLUS], t) else Answering([MINUS], Hunt(t))
  {
    var tail := [HASH, c1, c2] + t;
    assert tail[1..] == [c1, c2] + t;
    assert ([c1, c2] + t)[2..] == t;
    hide Checksum, Transmitted, Hunt;
    assert Body(tail, got) == Check([c1, c2] + t, got);
  }

  function Minuses(n: nat): Text {
    seq(n, _ => MINUS)
  }

  /** For any noise, any frames cut off by a '$' and any frames with a bad
      checksum, followed by a good frame that fits, reception returns that frame's
      payload after one '-' for each bad frame and one '+', and reads no further. */
  lemma {:induction false} GoodFrameIsReceived(bad: seq<Attempt>, good: Attempt, rest: Text)
    requires good.Valid() && good.Good()
    requires forall i :: 0 <= i < |bad| ==> bad[i].Valid() && !bad[i].Good()
    ensures Hunt(AllChars(bad) + (good.Chars() + rest)) == Got(good.body, Minuses(|bad|) + [PLUS], rest)
  {
    hide Hunt;
    var last := good.Chars() + rest;
    if bad == [] {
      assert AllChars(bad) + last == last;
      assert Minuses(0) + [PLUS] == [PLUS];
      HuntAttempt(good, rest);
    } else {
      assert AllChars(bad) + last == bad[0].Chars() + (AllChars(bad[1..]) + last);
      HuntAttempt(bad[0], AllChars(bad[1..]) + last);
      GoodFrameIsReceived(bad[1..], good, rest);
      assert [MINUS] + (Minuses(|bad| - 1) + [PLUS]) == Minuses(|bad|) + [PLUS];
    }
  }

  // --------------------------------------------- what is acknowledged is genuine

  /** The text holds the payload as a whole frame, right before `rest`. */
  ghost predicate Genuine(t: Text, payload: Text, rest: Text) {
    exists pre: Text, c1: Byte, c2: Byte ::
      && t == pre + [DOLLAR] + payload + [HASH, c1, c2] + rest
      && Checksum(payload) == Transmitted(c1, c2)
  }

  /** As `Genuine`, for a frame of which `got` has been read already. */
  ghost predicate Continues(t: Text, got: Text, payload: Text, rest: Text) {
    exists more: Text, c1: Byte, c2: Byte ::
      && payload == got + more
      && t == more + [HASH, c1, c2] + rest
      && Checksum(payload) == Transmitted(c1, c2)
  }

  predicate Acknowledged(o: Outcome) {
    o.Got? && o.acks != [] && o.acks[|o.acks| - 1] == PLUS
  }

  lemma Regroup(a: Text, b: Text, c: Text)
    ensures a + (b + c) == (a + b) + c
  {
  }

  lemma FrameParts(p: Text, payload: Text, check: Text, rest: Text)
    ensures p + [DOLLAR] + payload + check + rest == p + ([DOLLAR] + payload + check + rest)
  {
  }

  lemma GenuineLater(t: Text, pre: Text, payload: Text, rest: Text)
    requires Genuine(t, payload, rest)
    ensures Genuine(pre + t, payload, rest)
  {
    hide Checksum, Transmitted;
    var p, c1, c2 :| t == p + [DOLLAR] + payload + [HASH, c1, c2] + rest && Checksum(payload) == Transmitted(c1, c2);
    Regroup(pre, p, [DOLLAR] + payload + [HASH, c1, c2] + rest);
    FrameParts(p, payload, [HASH, c1, c2], rest);
    FrameParts(pre + p, payload, [HASH, c1, c2], rest);
  }

  /** A payload is acknowledged only if it arrived as one whole frame with its
      checksum, is free of '$' and '#', and fits the buffer. */
  lemma {:induction false} AcknowledgedIsGenuine(t: Text)
    requires Acknowledged(Hunt(t))
    ensures Genuine(t, Hunt(t).payload, Hunt(t).rest) && Clean(Hunt(t).payload, BUFFER_LIMIT)
    decreases |t|
  {
    hide Genuine, Continues, Checksum, Transmitted;
    var o := Hunt(t);
    if t[0] == DOLLAR {
      BodyIsGenuine(t[1..], []);
      RestartIsGenuine(t, o.payload, o.rest);
    } else {
      AcknowledgedIsGenuine(t[1..]);
      GenuineLater(t[1..], [t[0]], o.payload, o.rest);
      assert t == [t[0]] + t[1..];
    }
  }

  lemma {:induction false} BodyIsGenuine(t: Text, got: Text)
    requires Acknowledged(Body(t, got)) && Clean(got, BUFFER_LIMIT)
    ensures var o := Body(t, got);
            (Continues(t, got, o.payload, o.rest) || Genuine(t, o.payload, o.rest)) && Clean(o.payload, BUFFER_LIMIT)
    decreases |t|
  {
    hide Genuine, Continues, Checksum, Transmitted;
    var o := Body(t, got);
    if t[0] == HASH {
      CheckIsGenuine(t[1..], got);
      assert t == [HASH] + t[1..];
    } else if t[0] == DOLLAR {
      BodyIsGenuine(t[1..], []);
      RestartIsGenuine(t, o.payload, o.rest);
    } else {
      BodyIsGenuine(t[1..], got + [t[0]]);
      OneMoreIsGenuine(t, got, o.payload, o.rest);
    }
  }

  lemma OneMoreIsGenuine(t: Text, got: Text, payload: Text, rest: Text)
    requires t != []
    requires Continues(t[1..], got + [t[0]], payload, rest) || Genuine(t[1..], payload, rest)
    ensures Continues(t, got, payload, rest) || Genuine(t, payload, rest)
  {
    hide Checksum, Transmitted;
    assert t == [t[0]] + t[1..];
    if Continues(t[1..], got + [t[0]], payload, rest) {
      var more, c1, c2 :| payload == got + [t[0]] + more && t[1..] == more + [HASH, c1, c2] + rest
                          && Checksum(payload) == Transmitted(c1, c2);
      assert payload == got + ([t[0]] + more);
      assert t == ([t[0]] + more) + [HASH, c1, c2] + rest;
      assert Continues(t, got, payload, rest);
    } else {
      GenuineLater(t[1..], [t[0]], payload, rest);
    }
  }

  /** A '$' and what follows it as a frame's continuation make a whole frame. */
  lemma RestartIsGenuine(t: Text, payload: Text, rest: Text)
    requires t != [] && t[0] == DOLLAR
    requires Continues(t[1..], [], payload, rest) || Genuine(t[1..], payload, rest)
    ensures Genuine(t, payload, rest)
  {
    hide Checksum, Transmitted, Genuine;
    assert t == [DOLLAR] + t[1..];
    if Continues(t[1..], [], payload, rest) {
      FrameIsGenuine(t[1..], payload, rest);
    } else {
      GenuineLater(t[1..], [DOLLAR], payload, rest);
    }
  }

  lemma FrameIsGenuine(t: Text, payload: Text, rest: Text)
    requires Continues(t, [], payload, rest)
    ensures Genuine([DOLLAR] + t, payload, rest)
  {
    hide Checksum, Transmitted;
    var more, c1, c2 :| payload == [] + more && t == more + [HASH, c1, c2] + rest
                        && Checksum(payload) == Transmitted(c1, c2);
    assert payload == more;
    FrameParts([], payload, [HASH, c1, c2], rest);
    assert [] + ([DOLLAR] + payload + [HASH, c1, c2] + rest) == [DOLLAR] + t;
  }

  lemma {:induction false} CheckIsGenuine(t: Text, got: Text)
    requires Acknowledged(Check(t, got)) && Clean(got, BUFFER_LIMIT)
    ensures var o := Check(t, got);
            && (Continues([HASH] + t, got, o.payload, o.rest) || Genuine([HASH] + t, o.payload, o.rest))
            && Clean(o.payload, BUFFER_LIMIT)
    decreases |t|
  {
    var o := Check(t, got);
    if Checksum(got) == Transmitted(t[0], t[1]) {
      assert got == got + [];
      assert [HASH] + t == [] + [HASH, t[0], t[1]] + o.rest;
    } else {
      var u := Hunt(t[2..]);
      assert o.payload == u.payload && o.rest == u.rest && o.acks == [MINUS] + u.acks;
      assert u.acks != [];
      AcknowledgedIsGenuine(t[2..]);
      GenuineLater(t[2..], [HASH, t[0], t[1]], u.payload, u.rest);
      assert [HASH] + t == [HASH, t[0], t[1]] + t[2..];
    }
  }

  /** A frame too long for the buffer: reception ends, unanswered, with the
      characters that fit; the one that did not is lost and the rest of the frame
      is left for the next reception. */
  lemma OverlongIsCut(b: Text, t: Text)
    requires Clean(b, |b|) && |b| > 627
    ensures Hunt([DOLLAR] + (b + t)) == Got(b[..627], [], b[628..] + t)
  {
    var fits, tail := b[..627], b[627..] + t;
    assert b + t == fits + tail;
    assert ([DOLLAR] + (b + t))[1..] == b + t;
    BodyCollects(fits, tail, []);
    assert [] + fits == fits;
    assert tail[0] == b[627] && b[627] in b;
    assert tail[1..] == b[628..] + t;
  }

  /** The characters on the wire: a reply that every debugger knows. */
  lemma OkOnTheWire()
    ensures Frame(['O' as int, 'K' as int]) == ['$' as int, 'O' as int, 'K' as int, '#' as int, '9' as int, 'a' as int]
    ensures PLUS == '+' as int && MINUS == '-' as int
  {
    hide Checksum;
    OkChecksum();
  }

  lemma OkChecksum()
    ensures Checksum([0x4F, 0x4B]) == 0x9A
  {
    hide Checksum;
    NoChecksum();
    ChecksumOneMore([], 0x4F);
    ChecksumOneMore([0x4F], 0x4B);
    assert [] + [0x4F] == [0x4F] && [0x4F] + [0x4B] == [0x4F, 0x4B];
  }

  /** What one end sends the other receives, with a single '+', if and only if the
      payload has no '$', '#' or zero in it and fits the buffer: nothing is
      escaped, and a zero ends it. */
  lemma SentIsReceived(payload: Text, rest: Text)
    ensures Hunt(Frame(UpToZero(payload)) + rest) == Got(payload, [PLUS], rest) <==>
              Clean(payload, 627) && 0 !in payload
  {
    var sent := UpToZero(payload);
    var sum := Checksum(sent);
    if Clean(payload, BUFFER_LIMIT) && 0 !in payload {
      var a := Attempt([], [], sent, HexChar(sum / 16), HexChar(sum));
      HexRoundTrip(sum);
      assert a.Chars() == Frame(sent);
      HuntAttempt(a, rest);
    } else if Hunt(Frame(sent) + rest) == Got(payload, [PLUS], rest) {
      AcknowledgedIsGenuine(Frame(sent) + rest);
      OneFrame(sent, payload, rest);
    }
  }

  /** A frame followed by `rest` is no other frame followed by `rest`, if what it
      carries has no '$'. */
  lemma OneFrame(sent: Text, payload: Text, rest: Text)
    requires Genuine(Frame(sent) + rest, payload, rest) && 0 !in sent
    ensures 0 !in payload
  {
    hide Checksum, Transmitted;
    var pre, c1, c2 :| Frame(sent) + rest == pre + [DOLLAR] + payload + [HASH, c1, c2] + rest
                       && Checksum(payload) == Transmitted(c1, c2);
    var tail, tail' := [HASH, HexChar(Checksum(sent) / 16), HexChar(Checksum(sent))] + rest, [HASH, c1, c2] + rest;
    FrameParts([], sent, [HASH, HexChar(Checksum(sent) / 16), HexChar(Checksum(sent))], rest);
    assert [] + [DOLLAR] + sent + tail == Frame(sent) + rest;
    assert (pre + [DOLLAR] + payload + [HASH, c1, c2]) + rest == pre + [DOLLAR] + payload + tail';
    forall k | 0 <= k < |payload| ensures payload[k] != 0 {
      Inside(pre, payload, tail', k);
      Inside([], sent, tail, |pre| + k);
      assert sent[|pre| + k] in sent;
    }
  }

  lemma Inside(pre: Text, t: Text, tail: Text, k: nat)
    requires k < |t|
    ensures (pre + [DOLLAR] + t + tail)[|pre| + 1 + k] == t[k]
  {
  }
}
