/**
  One `lr; branch; sc` site by itself: what the three instructions do to a
  machine, what the fused one does, and for exactly which sites the two agree.
*/
module Sites {
  import opened Common
  import opened Machine

  /** A site the pass fuses: the branch tests the loaded register and both
      accesses use the same address register. */
  datatype Site = Site(lr: Insn, branch: Insn, sc: Insn) {
    predicate Ok() {
      lr.IsLr() && branch.IsBranch() && sc.IsSc() && branch.rs1 == lr.rd && sc.rs1 == lr.rs1
    }

    // The registers it names.
    function Loaded(): int { lr.rd }
    function Address(): int { lr.rs1 }
    function Test(): int { branch.TestReg() }
    function NewValue(): int { sc.rs2 }
    function Flag(): int { sc.rd }

    /** Where it leads when the SC is reached, relative to its start. */
    function End(): int { 8 + branch.Len() }

    /** The SC's flag goes nowhere. */
    predicate Silent() { !Real(Flag()) }

    /** A taken branch merely skips the SC. */
    predicate Skips() { 4 + branch.imm == End() }
  }

  /** A register that holds what is written to it. */
  predicate Real(n: int) { 0 < n < 32 }

  /** LR, branch and, if it falls through, SC, without interruption.  The SC
      succeeds if the bytes it stores are among those the LR reserved. */
  function Original(s: Site, m: Machine, h: nat, input: int): Option<Machine>
    requires s.Ok() && h < |m.harts|
  {
    var hart, w, v := m.harts[h], s.lr.AccessWidth(), s.sc.AccessWidth();
    var a := Get(hart.x, s.Address());
    if !Aligned(a, w) || !InRange(m.mem, a, w) then None else
    var x := Set(hart.x, s.Loaded(), Load(m.mem, a, w));
    if Taken(s.branch, x) then Some(Update(m, h, x, hart.pc + 4 + s.branch.imm, m.mem)) else
    var b := Get(x, s.Address());
    if !Aligned(b, v) || !InRange(m.mem, b, v) then None else
    if Span(a, w.Bytes()).Covers(Span(b, v.Bytes())) then
      Some(Update(m, h, Set(x, s.Flag(), 0), hart.pc + s.End(), Store(m.mem, b, v, Get(x, s.NewValue()))))
    else Some(Update(m, h, Set(x, s.Flag(), FailCode(input)), hart.pc + s.End(), m.mem))
  }

  /** The fused instruction. */
  function Swapped(s: Site, m: Machine, h: nat): Option<Machine>
    requires s.Ok() && h < |m.harts|
  {
    var hart, w := m.harts[h], s.lr.AccessWidth();
    var a := Get(hart.x, s.Address());
    if !InRange(m.mem, a, w) then None else
    var found := Load(m.mem, a, w);
    var x := Set(hart.x, s.Loaded(), found);
    if found == Truncate(w, Get(hart.x, s.Test())) then
      Some(Update(m, h, Set(x, s.Flag(), 0), hart.pc + s.End(), Store(m.mem, a, w, Get(hart.x, s.NewValue()))))
    else Some(Update(m, h, x, hart.pc + 4 + s.branch.imm, m.mem))
  }

  /** What the state must satisfy for the fused instruction to be meant: an
      aligned address, and a test register holding a value of the operand width,
      unless memory differs from its truncation anyway. */
  predicate StateOk(s: Site, m: Machine, h: nat)
    requires s.Ok() && h < |m.harts|
  {
    var x, w := m.harts[h].x, s.lr.AccessWidth();
    var a, test := Get(x, s.Address()), Get(x, s.Test());
    Aligned(a, w) && (Truncate(w, test) == test || !InRange(m.mem, a, w) || Load(m.mem, a, w) != Truncate(w, test))
  }

  /** The sites whose fusion preserves meaning.  In the ordinary case the loaded
      register is a real one and none of the address, test and new-value
      registers, and LR and SC have the same width; or the SC stores the lower
      half of the very value that was tested.  What else there is are sites whose
      SC reports to x0: one that loads zero into its own address register and
      stores zero, and one that stores what it loaded and goes on behind the SC
      in any case.

      Memory begins at address 0 here, which a guest never has mapped, and two
      corners hang on it: the site that loads zero into its own address register
      is good because its SC can store at 0, and the site that loads into x0, with
      one register for address, test and new value, is bad because of the state
      where that register holds 0 (`X0Keeps`). */
  predicate GoodSite(s: Site) {
    && Real(s.Loaded())
    && s.sc.AccessWidth().Bytes() <= s.lr.AccessWidth().Bytes()
    && if s.Test() == s.Loaded() then
         s.NewValue() == s.Loaded() && s.Address() != s.Loaded() && s.Silent() && s.Skips()
       else
         && s.NewValue() != s.Loaded()
         && (s.Address() != s.Loaded() || (s.Silent() && !Real(s.Test()) && !Real(s.NewValue())))
         && (s.sc.AccessWidth() == s.lr.AccessWidth() || SameValue(s.NewValue(), s.Test()))
  }

  /** Registers that always read alike. */
  predicate SameValue(n: int, k: int) {
    n == k || (!Real(n) && !Real(k))
  }

  // ------------------------------------------------------------- good sites

  /** Truncation is the identity on what a load of that width returns. */
  lemma LoadIsTruncated(mem: Memory, a: int, w: Width)
    requires InRange(mem, a, w)
    ensures Truncate(w, Load(mem, a, w)) == Load(mem, a, w)
  {
    TruncateTwice(w, Unsigned(mem[a..a + w.Bytes()]));
  }

  lemma TruncateTwice(w: Width, v: int)
    ensures Truncate(w, Truncate(w, v)) == Truncate(w, v)
  {
  }

  lemma {:induction false} BytesOfUnsigned(b: seq<Byte>, k: nat)
    requires k <= |b|
    ensures ToBytes(Unsigned(b), k) == b[..k]
  {
    if k > 0 {
      var rest := Unsigned(b[1..]);
      BytesOfUnsigned(b[1..], k - 1);
      assert Unsigned(b) % 256 == b[0] && Unsigned(b) / 256 == rest;
      assert b[..k] == [b[0]] + b[1..][..k - 1];
    }
  }

  lemma DropModulus(v: nat, w: Width)
    ensures ToBytes(v % w.Modulus(), w.Bytes()) == ToBytes(v, w.Bytes())
  {
    DropPower(v, w.Bytes());
    ModulusIsPower(w);
  }

  lemma {:induction false} DropPower(v: nat, k: nat)
    ensures Power256(k) > 0 && ToBytes(v % Power256(k), k) == ToBytes(v, k)
  {
    if k > 0 {
      var p := Power256(k - 1);
      DropPower(v / 256, k - 1);
      DivMod(v, p);
    }
  }

  lemma DivMod(v: nat, p: nat)
    requires p > 0
    ensures (v % (256 * p)) % 256 == v % 256 && (v % (256 * p)) / 256 == (v / 256) % p
  {
    var q, r := v / (256 * p), v % (256 * p);
    assert v == 256 * (p * q) + r;
    RemainderIs(v, 256, p * q + r / 256, r % 256);
    RemainderIs(v / 256, p, q, r / 256);
  }

  /** Truncation gives the signed number of that width with the same low bytes. */
  lemma TruncateIs(w: Width, v: int)
    ensures w.W4? ==> -0x8000_0000 <= Truncate(w, v) < 0x8000_0000 && Truncate(w, v) % 0x1_0000_0000 == v % 0x1_0000_0000
    ensures w.W8? ==> -0x8000_0000_0000_0000 <= Truncate(w, v) < 0x8000_0000_0000_0000
                      && Truncate(w, v) % 0x1_0000_0000_0000_0000 == v % 0x1_0000_0000_0000_0000
  {
    TruncateKeepsModulus(w, v);
  }

  lemma TruncateKeepsModulus(w: Width, v: int)
    ensures Truncate(w, v) % w.Modulus() == v % w.Modulus()
  {
    ShiftedRemainder(v, w.Modulus() / 2, w.Modulus());
  }

  lemma TruncateKeepsLow(w: Width, v: Width, u: nat)
    requires v.Bytes() <= w.Bytes()
    ensures Truncate(w, u) % v.Modulus() == u % v.Modulus()
  {
    TruncateKeepsModulus(w, u);
    if v != w {
      RemainderTwice(Truncate(w, u), 0x1_0000_0000, 0x1_0000_0000);
      RemainderTwice(u, 0x1_0000_0000, 0x1_0000_0000);
    }
  }

  /** Storing back what was loaded, or its lower half, changes nothing. */
  lemma StoreLoaded(mem: Memory, a: int, w: Width, v: Width)
    requires InRange(mem, a, w) && v.Bytes() <= w.Bytes()
    ensures Store(mem, a, v, Load(mem, a, w)) == mem
  {
    var b := mem[a..a + w.Bytes()];
    var u := Unsigned(b);
    TruncateKeepsLow(w, v, u);
    hide Unsigned, ToBytes, Truncate;
    DropModulus(u, v);
    BytesOfUnsigned(b, v.Bytes());
    Cut(mem, a, v.Bytes(), w.Bytes());
  }

  lemma Cut(mem: Memory, a: nat, n: nat, k: nat)
    requires n <= k && a + k <= |mem|
    ensures mem == mem[..a] + mem[a..a + k][..n] + mem[a + n..]
  {
  }

  /** What the registers of a site read before and after the load. */
  lemma SiteReads(s: Site, x: Regs, found: Word, input: int)
    requires s.Ok() && Real(s.Loaded())
    ensures var y := Set(x, s.Loaded(), found);
            && Get(y, s.Loaded()) == found
            && (s.Test() != s.Loaded() ==> Get(y, s.Test()) == Get(x, s.Test()))
            && (s.Address() != s.Loaded() ==> Get(y, s.Address()) == Get(x, s.Address()))
            && (s.NewValue() != s.Loaded() ==> Get(y, s.NewValue()) == Get(x, s.NewValue()))
            && (s.Silent() ==> Set(y, s.Flag(), 0) == y && Set(y, s.Flag(), FailCode(input)) == y)
    ensures SameValue(s.NewValue(), s.Test()) ==> Get(x, s.NewValue()) == Get(x, s.Test())
    ensures !Real(s.Test()) ==> Get(x, s.Test()) == 0
    ensures !Real(s.NewValue()) ==> Get(x, s.NewValue()) == 0
  {
    hide FailCode;
  }

  /** The registers after the load. */
  function After(s: Site, m: Machine, h: nat): Regs
    requires s.Ok() && h < |m.harts| && InRange(m.mem, Get(m.harts[h].x, s.Address()), s.lr.AccessWidth())
  {
    Set(m.harts[h].x, s.Loaded(), Load(m.mem, Get(m.harts[h].x, s.Address()), s.lr.AccessWidth()))
  }

  predicate Loads(s: Site, m: Machine, h: nat)
    requires s.Ok() && h < |m.harts|
  {
    var a, w := Get(m.harts[h].x, s.Address()), s.lr.AccessWidth();
    Aligned(a, w) && InRange(m.mem, a, w)
  }

  // The three ways the original goes, and the two of the fused instruction.

  lemma OriginalTaken(s: Site, m: Machine, h: nat, input: int)
    requires s.Ok() && h < |m.harts| && Loads(s, m, h)
    requires Get(After(s, m, h), s.Loaded()) != Get(After(s, m, h), s.Test())
    ensures Original(s, m, h, input) == Some(Update(m, h, After(s, m, h), m.harts[h].pc + 4 + s.branch.imm, m.mem))
  {
    hide Load, Store, Get, Set, Update;
  }

  lemma OriginalStores(s: Site, m: Machine, h: nat, input: int)
    requires s.Ok() && h < |m.harts| && Loads(s, m, h)
    requires Get(After(s, m, h), s.Loaded()) == Get(After(s, m, h), s.Test())
    requires Get(After(s, m, h), s.Address()) == Get(m.harts[h].x, s.Address())
    requires s.sc.AccessWidth().Bytes() <= s.lr.AccessWidth().Bytes()
    ensures var a, y := Get(m.harts[h].x, s.Address()), After(s, m, h);
            && InRange(m.mem, a, s.sc.AccessWidth())
            && Original(s, m, h, input) ==
                 Some(Update(m, h, Set(y, s.Flag(), 0), m.harts[h].pc + s.End(), Store(m.mem, a, s.sc.AccessWidth(), Get(y, s.NewValue()))))
  {
    hide Load, Store, Get, Set, Update, Aligned, InRange, FailCode;
    var a := Get(m.harts[h].x, s.Address());
    Narrower(m.mem, a, s.lr.AccessWidth(), s.sc.AccessWidth());
    assert Span(a, s.lr.AccessWidth().Bytes()).Covers(Span(a, s.sc.AccessWidth().Bytes()));
  }

  lemma Narrower(mem: Memory, a: int, w: Width, v: Width)
    requires Aligned(a, w) && InRange(mem, a, w) && v.Bytes() <= w.Bytes()
    ensures Aligned(a, v) && InRange(mem, a, v)
  {
  }

  /** The SC comes to address 0, having loaded a zero there or elsewhere. */
  lemma OriginalAtZero(s: Site, m: Machine, h: nat, input: int)
    requires s.Ok() && h < |m.harts| && Loads(s, m, h)
    requires Get(After(s, m, h), s.Loaded()) == Get(After(s, m, h), s.Test())
    requires Get(After(s, m, h), s.Address()) == 0
    requires s.sc.AccessWidth().Bytes() <= s.lr.AccessWidth().Bytes()
    ensures var a, y := Get(m.harts[h].x, s.Address()), After(s, m, h);
            && InRange(m.mem, 0, s.sc.AccessWidth())
            && Original(s, m, h, input) ==
                 Some(if a == 0 then
                        Update(m, h, Set(y, s.Flag(), 0), m.harts[h].pc + s.End(), Store(m.mem, 0, s.sc.AccessWidth(), Get(y, s.NewValue())))
                      else Update(m, h, Set(y, s.Flag(), FailCode(input)), m.harts[h].pc + s.End(), m.mem))
  {
    hide Load, Store, Get, Set, Update, FailCode;
  }

  lemma SwappedIs(s: Site, m: Machine, h: nat)
    requires s.Ok() && h < |m.harts| && Loads(s, m, h)
    ensures var x, y, w := m.harts[h].x, After(s, m, h), s.lr.AccessWidth();
            var a := Get(x, s.Address());
            Swapped(s, m, h) == Some(
              if Load(m.mem, a, w) == Truncate(w, Get(x, s.Test())) then
                Update(m, h, Set(y, s.Flag(), 0), m.harts[h].pc + s.End(), Store(m.mem, a, w, Get(x, s.NewValue())))
              else Update(m, h, y, m.harts[h].pc + 4 + s.branch.imm, m.mem))
  {
    hide Load, Store, Get, Set, Update, Truncate;
  }

  /** In a state that means it, the swap takes place iff memory holds what the
      whole test register holds. */
  lemma SwapDecides(s: Site, m: Machine, h: nat)
    requires s.Ok() && h < |m.harts| && StateOk(s, m, h) && Swapped(s, m, h).Some?
    ensures var x, w := m.harts[h].x, s.lr.AccessWidth();
            var a, test := Get(x, s.Address()), Get(x, s.Test());
            && Aligned(a, w) && InRange(m.mem, a, w)
            && (Load(m.mem, a, w) == Truncate(w, test) <==> Load(m.mem, a, w) == test)
  {
    hide Load, Store, Truncate;
    var x, w := m.harts[h].x, s.lr.AccessWidth();
    LoadIsTruncated(m.mem, Get(x, s.Address()), w);
  }

  lemma OrdinaryAgrees(s: Site, m: Machine, h: nat, input: int)
    requires s.Ok() && h < |m.harts| && GoodSite(s) && StateOk(s, m, h) && Swapped(s, m, h).Some?
    requires s.Test() != s.Loaded() && s.Address() != s.Loaded()
    ensures Original(s, m, h, input) == Swapped(s, m, h)
  {
    SwapDecides(s, m, h);
    hide Load, Store, Truncate, Get, Set, Update, StateOk, Original, Swapped;
    var x, w, v := m.harts[h].x, s.lr.AccessWidth(), s.sc.AccessWidth();
    var a := Get(x, s.Address());
    SiteReads(s, x, Load(m.mem, a, w), input);
    SwappedIs(s, m, h);
    if Load(m.mem, a, w) == Get(x, s.Test()) {
      OriginalStores(s, m, h, input);
      if v != w {
        StoreLoaded(m.mem, a, w, v);
        StoreLoaded(m.mem, a, w, w);
      }
    } else {
      OriginalTaken(s, m, h, input);
    }
  }

  lemma ZeroAgrees(s: Site, m: Machine, h: nat, input: int)
    requires s.Ok() && h < |m.harts| && GoodSite(s) && StateOk(s, m, h) && Swapped(s, m, h).Some?
    requires s.Test() != s.Loaded() && s.Address() == s.Loaded()
    ensures Original(s, m, h, input) == Swapped(s, m, h)
  {
    SwapDecides(s, m, h);
    hide Load, Store, Truncate, Get, Set, Update, StateOk, Original, Swapped;
    var x, w := m.harts[h].x, s.lr.AccessWidth();
    var a := Get(x, s.Address());
    SiteReads(s, x, Load(m.mem, a, w), input);
    SwappedIs(s, m, h);
    if Load(m.mem, a, w) == 0 {
      OriginalAtZero(s, m, h, input);
      StoreLoaded(m.mem, a, w, s.sc.AccessWidth());
      StoreLoaded(m.mem, a, w, w);
    } else {
      OriginalTaken(s, m, h, input);
    }
  }

  lemma SkippingAgrees(s: Site, m: Machine, h: nat, input: int)
    requires s.Ok() && h < |m.harts| && GoodSite(s) && StateOk(s, m, h) && Swapped(s, m, h).Some?
    requires s.Test() == s.Loaded()
    ensures Original(s, m, h, input) == Swapped(s, m, h)
  {
    SwapDecides(s, m, h);
    hide Load, Store, Truncate, Get, Set, Update, StateOk, Original, Swapped;
    var x, w := m.harts[h].x, s.lr.AccessWidth();
    var a := Get(x, s.Address());
    SiteReads(s, x, Load(m.mem, a, w), input);
    SwappedIs(s, m, h);
    OriginalStores(s, m, h, input);
    StoreLoaded(m.mem, a, w, s.sc.AccessWidth());
    StoreLoaded(m.mem, a, w, w);
  }

  /** At a good site, from every state that means the fused instruction, it does
      what the three instructions do. */
  lemma GoodSiteAgrees(s: Site, m: Machine, h: nat, input: int)
    requires s.Ok() && h < |m.harts| && GoodSite(s) && StateOk(s, m, h)
    requires Swapped(s, m, h).Some?
    ensures Original(s, m, h, input) == Swapped(s, m, h)
  {
    hide GoodSite, StateOk, Original, Swapped;
    if s.Test() == s.Loaded() {
      SkippingAgrees(s, m, h, input);
    } else if s.Address() == s.Loaded() {
      ZeroAgrees(s, m, h, input);
    } else {
      OrdinaryAgrees(s, m, h, input);
    }
  }

  // -------------------------------------------------------------- bad sites

  /** Memory of n bytes: b at every address that is r modulo 8, zero elsewhere. */
  function Pattern(n: nat, r: nat, b: Byte): (mem: Memory)
    ensures |mem| == n
  {
    seq(n, k => if k % 8 == r then b else 0)
  }

  /** All registers alike. */
  function Every(v: Word): Regs { seq(32, _ => v) }

  /** One hart at pc. */
  function State(x: Regs, pc: int, mem: Memory): (m: Machine)
    ensures |m.harts| == 1
  {
    Machine(mem, [Hart(x, pc)])
  }

  /** From this state the fused instruction is meant and runs, and the three end
      in another machine, or in a fault. */
  predicate Differs(s: Site, m: Machine) {
    s.Ok() && |m.harts| == 1 && StateOk(s, m, 0) && Swapped(s, m, 0).Some? && Original(s, m, 0, 0) != Swapped(s, m, 0)
  }

  lemma {:induction false} UnsignedFirst(b: seq<Byte>)
    requires b != [] && forall k :: 0 < k < |b| ==> b[k] == 0
    ensures Unsigned(b) == b[0]
  {
    UnsignedZeros(b[1..]);
  }

  /** Loads from patterned memory. */
  lemma LoadPattern(n: nat, b: Byte, a: int, w: Width)
    requires InRange(Pattern(n, 0, b), a, w) && a % 8 == 0
    ensures Load(Pattern(n, 0, b), a, w) == b
  {
    UnsignedFirst(Pattern(n, 0, b)[a..a + w.Bytes()]);
  }

  lemma LoadUpper(n: nat, a: int)
    requires InRange(Pattern(n, 4, 1), a, W8) && a % 8 == 0
    ensures Load(Pattern(n, 4, 1), a, W8) == 0x1_0000_0000
  {
    var b := Pattern(n, 4, 1)[a..a + 8];
    UnsignedFirst(b[4..]);
    assert b[3..][1..] == b[4..];
    assert Unsigned(b[3..]) == 256;
    assert b[2..][1..] == b[3..];
    assert Unsigned(b[2..]) == 0x1_0000;
    assert b[1..][1..] == b[2..];
    assert Unsigned(b[1..]) == 0x100_0000;
  }

  /** The fifth byte of a word. */
  lemma FifthByte(u: nat)
    ensures ToBytes(u, 8)[4] == (u / 0x1_0000_0000) % 256
  {
    var u1, u2, u3, u4 := u / 256, u / 0x1_0000, u / 0x100_0000, u / 0x1_0000_0000;
    assert ToBytes(u, 8)[4] == ToBytes(u1, 7)[3];
    assert u1 / 256 == u2 && ToBytes(u1, 7)[3] == ToBytes(u2, 6)[2];
    assert u2 / 256 == u3 && ToBytes(u2, 6)[2] == ToBytes(u3, 5)[1];
    assert u3 / 256 == u4 && ToBytes(u3, 5)[1] == ToBytes(u4, 4)[0];
  }

  /** The first byte a store leaves, and the fifth. */
  lemma StoreFirst(mem: Memory, a: int, w: Width, v: Word)
    requires InRange(mem, a, w) && v >= 0
    ensures Store(mem, a, w, v)[a] == v % 256
    ensures w.W8? ==> Store(mem, a, w, v)[a + 4] == (v / 0x1_0000_0000) % 256
    ensures w.W4? && a + 4 < |mem| ==> Store(mem, a, w, v)[a + 4] == mem[a + 4]
  {
    var u := v % w.Modulus();
    StoredBytes(w, v);
    hide ToBytes;
    Written(mem, a, ToBytes(u, w.Bytes()));
  }

  lemma StoredBytes(w: Width, v: Word)
    requires v >= 0
    ensures ToBytes(v % w.Modulus(), w.Bytes())[0] == v % 256
    ensures w.W8? ==> ToBytes(v % w.Modulus(), 8)[4] == (v / 0x1_0000_0000) % 256
  {
    ByteArithmetic(w, v);
    FifthByte(v % w.Modulus());
  }

  lemma ByteArithmetic(w: Width, v: Word)
    requires v >= 0
    ensures (v % w.Modulus()) % 256 == v % 256
    ensures w.W8? ==> v % w.Modulus() == v
  {
    match w
    case W4 => RemainderTwice(v, 256, 0x100_0000);
    case W8 => RemainderIs(v, w.Modulus(), 0, v);
  }

  lemma Written(mem: Memory, a: nat, b: seq<Byte>)
    requires a + |b| <= |mem|
    ensures forall k :: 0 <= k < |mem| ==>
              (mem[..a] + b + mem[a + |b|..])[k] == if a <= k < a + |b| then b[k - a] else mem[k]
  {
  }

  /** Any site whose SC is wider than its LR: the SC may fault. */
  lemma WiderScDiffers(s: Site, pc: int)
    requires s.Ok() && s.sc.AccessWidth().Bytes() > s.lr.AccessWidth().Bytes()
    ensures Differs(s, State(Every(0), pc, Pattern(4, 0, 0)))
  {
    hide Load, Store;
    LoadPattern(4, 0, 0, W4);
  }

  /** Any site whose loaded register is x0. */
  lemma LoadIntoX0Differs(s: Site, pc: int) returns (m: Machine)
    requires s.Ok() && !Real(s.Loaded()) && s.sc.AccessWidth().Bytes() <= s.lr.AccessWidth().Bytes()
    ensures m.harts != [] && m.harts[0].pc == pc && Differs(s, m)
  {
    if !s.Silent() || !s.Skips() {
      m := State(Every(8), pc, Pattern(32, 0, 8));
      X0Seen(s, pc);
    } else if Real(s.Test()) && s.NewValue() != s.Test() {
      m := State(Set(Every(8), s.NewValue(), 16), pc, Pattern(32, 0, 8));
      X0Stores(s, pc);
    } else {
      m := State(Every(0), pc, Pattern(32, 0, 8));
      X0Keeps(s, pc);
    }
  }

  /** Two ways to see that machines differ: the pc, or a flag register. */
  lemma DifferentEnds(s: Site, o: Option<Machine>, u: Option<Machine>)
    requires u.Some? && |u.value.harts| == 1 && (o.Some? ==> |o.value.harts| == 1)
    requires o.Some? ==> o.value.harts[0].pc != u.value.harts[0].pc
                         || Get(o.value.harts[0].x, s.Flag()) != Get(u.value.harts[0].x, s.Flag())
    ensures o != u
  {
  }

  /** The branch looks at x0, not at memory. */
  lemma X0Seen(s: Site, pc: int)
    requires s.Ok() && !Real(s.Loaded()) && (!s.Silent() || !s.Skips())
    ensures Differs(s, State(Every(8), pc, Pattern(32, 0, 8)))
  {
    hide Load, Store, Pattern;
    var m := State(Every(8), pc, Pattern(32, 0, 8));
    LoadPattern(32, 8, Get(Every(8), s.Address()), s.lr.AccessWidth());
    DifferentEnds(s, Original(s, m, 0, 0), Swapped(s, m, 0));
  }

  lemma X0Stores(s: Site, pc: int)
    requires s.Ok() && !Real(s.Loaded()) && Real(s.Test()) && s.NewValue() != s.Test()
    ensures Differs(s, State(Set(Every(8), s.NewValue(), 16), pc, Pattern(32, 0, 8)))
  {
    hide Load, Store;
    var x, w := Set(Every(8), s.NewValue(), 16), s.lr.AccessWidth();
    var a := Get(x, s.Address());
    LoadPattern(32, 8, a, w);
    StoreFirst(Pattern(32, 0, 8), a, w, Get(x, s.NewValue()));
  }

  lemma X0Keeps(s: Site, pc: int)
    requires s.Ok() && !Real(s.Loaded()) && s.sc.AccessWidth().Bytes() <= s.lr.AccessWidth().Bytes()
    ensures Differs(s, State(Every(0), pc, Pattern(32, 0, 8)))
  {
    hide Load, Store;
    LoadPattern(32, 8, 0, s.lr.AccessWidth());
    StoreFirst(Pattern(32, 0, 8), 0, s.sc.AccessWidth(), 0);
  }

  /** Any site that tests the register it loads, but for those that are good. */
  lemma LoadIntoTestDiffers(s: Site, pc: int) returns (m: Machine)
    requires s.Ok() && Real(s.Loaded()) && s.sc.AccessWidth().Bytes() <= s.lr.AccessWidth().Bytes()
    requires s.Test() == s.Loaded() && !GoodSite(s)
    ensures m.harts != [] && m.harts[0].pc == pc && Differs(s, m)
  {
    if s.Silent() && s.Skips() && s.Address() == s.Loaded() {
      m := State(Every(8), pc, Pattern(32, 0, 1));
      TestFaults(s, pc);
    } else {
      m := State(Every(8), pc, Pattern(32, 0, 16));
      TestSeen(s, pc);
    }
  }

  lemma TestFaults(s: Site, pc: int)
    requires s.Ok() && Real(s.Loaded()) && s.Test() == s.Loaded() && s.Address() == s.Loaded()
    ensures Differs(s, State(Every(8), pc, Pattern(32, 0, 1)))
  {
    hide Load, Store;
    LoadPattern(32, 1, 8, s.lr.AccessWidth());
  }

  lemma TestSeen(s: Site, pc: int)
    requires s.Ok() && Real(s.Loaded()) && s.Test() == s.Loaded()
    requires s.sc.AccessWidth().Bytes() <= s.lr.AccessWidth().Bytes()
    requires !s.Silent() || !s.Skips() || (s.Address() != s.Loaded() && s.NewValue() != s.Loaded())
    ensures Differs(s, State(Every(8), pc, Pattern(32, 0, 16)))
  {
    hide Load, Store;
    var m := State(Every(8), pc, Pattern(32, 0, 16));
    var a := Get(Every(8), s.Address());
    LoadPattern(32, 16, a, s.lr.AccessWidth());
    if !s.Silent() || !s.Skips() {
      DifferentEnds(s, Original(s, m, 0, 0), Swapped(s, m, 0));
    } else {
      StoreFirst(m.mem, a, s.sc.AccessWidth(), Get(Every(8), s.NewValue()));
    }
  }

  /** Any site that stores the register it loads into, testing another. */
  lemma LoadIntoNewValueDiffers(s: Site, pc: int)
    requires s.Ok() && Real(s.Loaded()) && s.Test() != s.Loaded() && s.NewValue() == s.Loaded()
    ensures Differs(s, State(Set(Every(0), s.Loaded(), 8), pc, Pattern(32, 0, 0)))
  {
    hide Load, Store;
    var x, w := Set(Every(0), s.Loaded(), 8), s.lr.AccessWidth();
    var m := State(x, pc, Pattern(32, 0, 0));
    var a := Get(x, s.Address());
    LoadPattern(32, 0, a, w);
    StoreFirst(m.mem, a, w, 8);
    StoreFirst(m.mem, 0, s.sc.AccessWidth(), 0);
    assert Swapped(s, m, 0).value.mem[a] == 8;
    assert Original(s, m, 0, 0).value.mem[a] == 0;
  }

  /** Any site that loads into its address register, but for those that are good. */
  lemma LoadIntoAddressDiffers(s: Site, pc: int) returns (m: Machine)
    requires s.Ok() && Real(s.Loaded()) && s.sc.AccessWidth().Bytes() <= s.lr.AccessWidth().Bytes()
    requires s.Address() == s.Loaded() && s.Test() != s.Loaded() && s.NewValue() != s.Loaded() && !GoodSite(s)
    ensures m.harts != [] && m.harts[0].pc == pc && Differs(s, m)
  {
    var x := Set(Every(0), s.Address(), 8);
    if !s.Silent() {
      m := State(x, pc, Pattern(32, 0, 0));
      AddressSeen(s, pc);
    } else if Real(s.Test()) {
      m := State(Set(x, s.Test(), 1), pc, Pattern(32, 0, 1));
      AddressFaults(s, pc);
    } else {
      m := State(Set(x, s.NewValue(), 1), pc, Pattern(32, 0, 0));
      AddressStores(s, pc);
    }
  }

  lemma AddressSeen(s: Site, pc: int)
    requires s.Ok() && Real(s.Loaded()) && !s.Silent()
    requires s.Address() == s.Loaded() && s.Test() != s.Loaded() && s.NewValue() != s.Loaded()
    ensures Differs(s, State(Set(Every(0), s.Address(), 8), pc, Pattern(32, 0, 0)))
  {
    hide Load, Store;
    var m := State(Set(Every(0), s.Address(), 8), pc, Pattern(32, 0, 0));
    LoadPattern(32, 0, 8, s.lr.AccessWidth());
    DifferentEnds(s, Original(s, m, 0, 0), Swapped(s, m, 0));
  }

  lemma AddressFaults(s: Site, pc: int)
    requires s.Ok() && Real(s.Loaded()) && Real(s.Test())
    requires s.Address() == s.Loaded() && s.Test() != s.Loaded()
    ensures Differs(s, State(Set(Set(Every(0), s.Address(), 8), s.Test(), 1), pc, Pattern(32, 0, 1)))
  {
    hide Load, Store;
    LoadPattern(32, 1, 8, s.lr.AccessWidth());
  }

  lemma AddressStores(s: Site, pc: int)
    requires s.Ok() && Real(s.Loaded()) && !Real(s.Test()) && Real(s.NewValue())
    requires s.Address() == s.Loaded() && s.NewValue() != s.Loaded()
    ensures Differs(s, State(Set(Set(Every(0), s.Address(), 8), s.NewValue(), 1), pc, Pattern(32, 0, 0)))
  {
    hide Load, Store;
    var w := s.lr.AccessWidth();
    LoadPattern(32, 0, 8, w);
    StoreFirst(Pattern(32, 0, 0), 8, w, 1);
  }

  /** Any site whose SC stores half of what the LR loads, and not of the value
      tested. */
  lemma WidthsDiffer(s: Site, pc: int) returns (m: Machine)
    requires s.Ok() && Real(s.Loaded()) && s.lr.AccessWidth() == W8 && s.sc.AccessWidth() == W4
    requires s.Loaded() != s.Address() && s.Loaded() != s.Test() && s.Loaded() != s.NewValue()
    requires !SameValue(s.NewValue(), s.Test())
    ensures m.harts != [] && m.harts[0].pc == pc && Differs(s, m)
  {
    if Real(s.NewValue()) {
      m := State(Set(Every(0), s.NewValue(), HIGH), pc, Pattern(HIGH + 32, 0, 0));
      UpperStored(s, pc);
    } else {
      m := State(Set(Every(0), s.Test(), HIGH), pc, Pattern(HIGH + 32, 4, 1));
      UpperKept(s, pc);
    }
  }

  const HIGH: Word := 0x1_0000_0000

  lemma UpperStored(s: Site, pc: int)
    requires s.Ok() && Real(s.Loaded()) && s.lr.AccessWidth() == W8 && s.sc.AccessWidth() == W4
    requires s.Loaded() != s.Address() && s.Loaded() != s.Test() && s.Loaded() != s.NewValue()
    requires Real(s.NewValue()) && s.Test() != s.NewValue()
    ensures Differs(s, State(Set(Every(0), s.NewValue(), HIGH), pc, Pattern(HIGH + 32, 0, 0)))
  {
    hide Load, Store;
    var x := Set(Every(0), s.NewValue(), HIGH);
    var mem, a := Pattern(HIGH + 32, 0, 0), Get(x, s.Address());
    LoadPattern(HIGH + 32, 0, a, W8);
    StoreFirst(mem, a, W8, HIGH);
    StoreFirst(mem, a, W4, HIGH);
  }

  lemma UpperKept(s: Site, pc: int)
    requires s.Ok() && Real(s.Loaded()) && s.lr.AccessWidth() == W8 && s.sc.AccessWidth() == W4
    requires s.Loaded() != s.Address() && s.Loaded() != s.Test() && s.Loaded() != s.NewValue()
    requires !Real(s.NewValue()) && Real(s.Test())
    ensures Differs(s, State(Set(Every(0), s.Test(), HIGH), pc, Pattern(HIGH + 32, 4, 1)))
  {
    hide Load, Store;
    var x := Set(Every(0), s.Test(), HIGH);
    var mem, a := Pattern(HIGH + 32, 4, 1), Get(x, s.Address());
    LoadUpper(HIGH + 32, a);
    StoreFirst(mem, a, W8, 0);
    StoreFirst(mem, a, W4, 0);
  }

  /** Every site that is not good differs from some state at every pc. */
  lemma BadSiteDiffers(s: Site, pc: int) returns (m: Machine)
    requires s.Ok() && !GoodSite(s)
    ensures m.harts != [] && m.harts[0].pc == pc && Differs(s, m)
  {
    hide Differs;
    var w, v := s.lr.AccessWidth(), s.sc.AccessWidth();
    if v.Bytes() > w.Bytes() {
      m := State(Every(0), pc, Pattern(4, 0, 0));
      WiderScDiffers(s, pc);
    } else if !Real(s.Loaded()) {
      m := LoadIntoX0Differs(s, pc);
    } else if s.Test() == s.Loaded() {
      m := LoadIntoTestDiffers(s, pc);
    } else if s.NewValue() == s.Loaded() {
      m := State(Set(Every(0), s.Loaded(), 8), pc, Pattern(32, 0, 0));
      LoadIntoNewValueDiffers(s, pc);
    } else if s.Address() == s.Loaded() {
      m := LoadIntoAddressDiffers(s, pc);
    } else {
      m := WidthsDiffer(s, pc);
    }
  }

  /** The exact condition.  A site is good iff, from every state that means the
      fused instruction, whatever the rest of the machine, it does what the three
      instructions do. */
  lemma SiteIsGoodIff(s: Site)
    requires s.Ok()
    ensures GoodSite(s) <==>
              forall m: Machine, h: nat, input :: h < |m.harts| && StateOk(s, m, h) && Swapped(s, m, h).Some? ==>
                Original(s, m, h, input) == Swapped(s, m, h)
  {
    hide GoodSite, Original, Swapped, StateOk;
    if GoodSite(s) {
      forall m: Machine, h: nat, input | h < |m.harts| && StateOk(s, m, h) && Swapped(s, m, h).Some?
        ensures Original(s, m, h, input) == Swapped(s, m, h)
      {
        GoodSiteAgrees(s, m, h, input);
      }
    } else {
      var m := BadSiteDiffers(s, 0);
      assert Original(s, m, 0, 0) != Swapped(s, m, 0);
    }
  }

  /** The swap would take place and change nothing but the pc. */
  predicate Idle(s: Site, m: Machine, h: nat)
    requires s.Ok() && h < |m.harts| && InRange(m.mem, Get(m.harts[h].x, s.Address()), s.lr.AccessWidth())
  {
    var x, w := m.harts[h].x, s.lr.AccessWidth();
    var a := Get(x, s.Address());
    var y := Set(x, s.Loaded(), Load(m.mem, a, w));
    Set(y, s.Flag(), 0) == y && Store(m.mem, a, w, Get(x, s.NewValue())) == m.mem
  }

  /** At a good site the states from which the two agree are those that mean the
      fused instruction, and those where the comparison comes out differently but
      the branch leads behind the SC and the swap has no effect. */
  lemma StateIsExact(s: Site, m: Machine, h: nat, input: int)
    requires s.Ok() && h < |m.harts| && GoodSite(s) && Swapped(s, m, h).Some?
    ensures var a := Get(m.harts[h].x, s.Address());
            Original(s, m, h, input) == Swapped(s, m, h) <==>
              StateOk(s, m, h) || (Aligned(a, s.lr.AccessWidth()) && s.Skips() && Idle(s, m, h))
  {
    hide GoodSite, Original, Swapped, StateOk, Idle;
    if StateOk(s, m, h) {
      GoodSiteAgrees(s, m, h, input);
    } else {
      StateNotOk(s, m, h, input);
    }
  }

  lemma StateNotOk(s: Site, m: Machine, h: nat, input: int)
    requires s.Ok() && h < |m.harts| && GoodSite(s) && Swapped(s, m, h).Some? && !StateOk(s, m, h)
    ensures var a := Get(m.harts[h].x, s.Address());
            Original(s, m, h, input) == Swapped(s, m, h) <==>
              Aligned(a, s.lr.AccessWidth()) && s.Skips() && Idle(s, m, h)
  {
    var x, w := m.harts[h].x, s.lr.AccessWidth();
    var a := Get(x, s.Address());
    if Aligned(a, w) {
      TestCut(s, m, h);
      hide Load, Store, Truncate, Get, Set, Update, Original, Swapped, StateOk;
      SiteReads(s, x, Load(m.mem, a, w), input);
      SwappedIs(s, m, h);
      if s.Test() == s.Loaded() {
        OriginalStores(s, m, h, input);
        StoreLoaded(m.mem, a, w, s.sc.AccessWidth());
        SameLowStore(m.mem, a, w, Get(x, s.Test()));
      } else {
        OriginalTaken(s, m, h, input);
        UpdatesEqual(m, h, After(s, m, h), m.harts[h].pc + 4 + s.branch.imm, m.mem,
                     Set(After(s, m, h), s.Flag(), 0), m.harts[h].pc + s.End(), Store(m.mem, a, w, Get(x, s.NewValue())));
      }
    } else {
      NothingMisaligned(s, m, h, input);
    }
  }

  lemma NothingMisaligned(s: Site, m: Machine, h: nat, input: int)
    requires s.Ok() && h < |m.harts| && !Aligned(Get(m.harts[h].x, s.Address()), s.lr.AccessWidth())
    ensures Original(s, m, h, input) == None
  {
  }

  /** An aligned state that does not mean the instruction: memory holds the
      truncation of the test register and not the register. */
  lemma TestCut(s: Site, m: Machine, h: nat)
    requires s.Ok() && h < |m.harts| && !StateOk(s, m, h) && Swapped(s, m, h).Some?
    requires Aligned(Get(m.harts[h].x, s.Address()), s.lr.AccessWidth())
    ensures var x, w := m.harts[h].x, s.lr.AccessWidth();
            var a, test := Get(x, s.Address()), Get(x, s.Test());
            && Loads(s, m, h) && Load(m.mem, a, w) == Truncate(w, test) != test
            && Real(s.Test())
  {
    hide Load, Store;
    ZeroIsTruncated(s.lr.AccessWidth());
  }

  lemma UpdatesEqual(m: Machine, h: nat, x: Regs, pc: int, mem: Memory, y: Regs, qc: int, mem': Memory)
    requires h < |m.harts|
    ensures Update(m, h, x, pc, mem) == Update(m, h, y, qc, mem') <==> x == y && pc == qc && mem == mem'
  {
    assert Update(m, h, x, pc, mem).harts[h] == Hart(x, pc);
    assert Update(m, h, y, qc, mem').harts[h] == Hart(y, qc);
  }

  lemma ZeroIsTruncated(w: Width)
    ensures Truncate(w, 0) == 0
  {
  }

  /** A store depends on the low part of the value alone. */
  lemma SameLowStore(mem: Memory, a: int, w: Width, v: Word)
    requires InRange(mem, a, w) && Load(mem, a, w) == Truncate(w, v)
    ensures Store(mem, a, w, v) == mem
  {
    StoreLoaded(mem, a, w, w);
    TruncateKeepsModulus(w, v);
  }
}
