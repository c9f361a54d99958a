/**
  The initial stack of a guest program: strings and program headers at the top,
  then argc, the argument and environment pointers and the auxiliary vector, laid
  out in zeroed memory; and the walk by which a guest reads them back.
*/
module Stack {
  import opened Common
  import opened Machine

  // ------------------------------------------------------------------ strings

  /** A C string, without its terminator. */
  type CString = s: seq<Byte> | forall i :: 0 <= i < |s| ==> s[i] != 0 witness []

  /** The strings as pushed: each below the one before it. */
  function Packed(ss: seq<CString>): seq<Byte> {
    if ss == [] then [] else ss[|ss| - 1] + [0] + Packed(ss[..|ss| - 1])
  }

  /** Little-endian words one after the other. */
  function WordBytes(ws: seq<int>): (b: seq<Byte>)
    requires forall i :: 0 <= i < |ws| ==> ws[i] >= 0
    ensures |b| == 8 * |ws|
  {
    if ws == [] then [] else WordBytes(ws[..|ws| - 1]) + ToBytes(ws[|ws| - 1], 8)
  }

  // ---------------------------------------------------------- auxiliary vector

  datatype Aux = Aux(key: nat, value: nat)

  /** What the loader knows of the program. */
  datatype Info = Info(phent: nat, phnum: nat, entry: nat)

  const AT_NULL := 0
  const AT_PHDR := 3
  const AT_PHENT := 4
  const AT_PHNUM := 5
  const AT_PAGESZ := 6
  const AT_ENTRY := 9
  const AT_SECURE := 23
  const AT_RANDOM := 25
  const PAGE_SIZE := 4096

  /** The value a guest gets for a key, or None for a key that is dropped. */
  function AuxValue(key: nat, info: Info, phdr: nat, sp: nat): Option<nat> {
    if key == AT_PAGESZ then Some(PAGE_SIZE)
    else if key == AT_PHDR then Some(phdr)
    else if key == AT_PHENT then Some(info.phent)
    else if key == AT_PHNUM then Some(info.phnum)
    else if key == AT_ENTRY then Some(info.entry)
    else if key == AT_SECURE then Some(0)
    else if key == AT_RANDOM then Some(sp)
    else None
  }

  /** The kept entries, in order. */
  function Kept(auxv: seq<Aux>, info: Info, phdr: nat, sp: nat): (k: seq<Aux>)
    ensures |k| <= |auxv|
    ensures forall i :: 0 <= i < |k| ==> k[i].key != AT_NULL
  {
    if auxv == [] then []
    else Kept(auxv[..|auxv| - 1], info, phdr, sp) + KeptEntry(auxv[|auxv| - 1], info, phdr, sp)
  }

  function KeptEntry(a: Aux, info: Info, phdr: nat, sp: nat): (k: seq<Aux>)
    ensures |k| <= 1 && (k != [] ==> k[0].key == a.key != AT_NULL)
  {
    match AuxValue(a.key, info, phdr, sp)
    case None => []
    case Some(v) => [Aux(a.key, v)]
  }

  function Flatten(aux: seq<Aux>): (ws: seq<int>)
    ensures |ws| == 2 * |aux| && forall i :: 0 <= i < |ws| ==> ws[i] >= 0
  {
    if aux == [] then [] else Flatten(aux[..|aux| - 1]) + [aux[|aux| - 1].key, aux[|aux| - 1].value]
  }

  predicate Terminated(auxv: seq<Aux>) {
    exists i :: 0 <= i < |auxv| && auxv[i].key == AT_NULL
  }

  /** Entries up to and including the first with key zero. */
  function AuxCount(auxv: seq<Aux>): (n: nat)
    requires Terminated(auxv)
    ensures 0 < n <= |auxv| && auxv[n - 1].key == AT_NULL
    ensures forall i :: 0 <= i < n - 1 ==> auxv[i].key != AT_NULL
  {
    if auxv[0].key == AT_NULL then 1 else 1 + AuxCount(auxv[1..])
  }

  // ------------------------------------------------------------------- layout

  function Align(x: int, n: int): int
    requires n > 0
  {
    x - x % n
  }

  /** Where the words begin when the strings begin at `top`. */
  function Bottom(top: int, argc: nat, envc: nat, auxc: nat): int {
    Align(Align(top - auxc * 16, 8) - (1 + argc + 1 + envc + 1 + 2 * auxc) * 8, 16)
  }

  /** The address of each string, memory beginning at `base` and the strings
      ending at index `end`. */
  function Pointers(ss: seq<CString>, base: nat, end: int): (p: seq<int>)
    ensures |p| == |ss|
  {
    if ss == [] then [] else Pointers(ss[..|ss| - 1], base, end) + [base + end - |Packed(ss)|]
  }

  /** The words of the stack, from its pointer up. */
  function Words(argc: nat, argv: seq<int>, envp: seq<int>, kept: seq<Aux>): (ws: seq<int>)
    ensures |ws| == 3 + |argv| + |envp| + 2 * |kept|
  {
    [argc] + argv + [0] + envp + [0] + Flatten(kept)
  }

  /** Memory with zeros, the words, more zeros, and what is above them. */
  function Image(sp: nat, ws: seq<int>, gap: nat, upper: seq<Byte>): seq<Byte>
    requires forall i :: 0 <= i < |ws| ==> ws[i] >= 0
  {
    Zeros(sp) + WordBytes(ws) + Zeros(gap) + upper
  }

  /** Memory with some words and, behind them, the entries pushed so far. */
  ghost predicate AuxImage(m: seq<Byte>, sp: nat, ws: seq<int>, kept: seq<Aux>, gap: nat, upper: seq<Byte>) {
    NonNegative(ws) && gap >= 16 * |kept| && m == Image(sp, ws + Flatten(kept), gap - 16 * |kept|, upper)
  }

  predicate NonNegative(ws: seq<int>) {
    forall i :: 0 <= i < |ws| ==> ws[i] >= 0
  }

  /** What a program is started with. */
  datatype Start = Start(argv: seq<CString>, envp: seq<CString>, auxv: seq<Aux>, header: seq<Byte>, info: Info) {
    predicate Ok() { Terminated(auxv) }
    function Strings(): seq<CString> { argv + envp }
    function Upper(): seq<Byte> { Packed(Strings()) + header }
  }

  /** The address of each string, in a stack of `size` bytes at `base`. */
  function Addresses(p: Start, size: nat, base: nat): (a: seq<int>)
    ensures |a| == |p.argv| + |p.envp|
  {
    Pointers(p.Strings(), base, size - |p.header|)
  }

  /** The auxiliary entries the guest gets. */
  function KeptOf(p: Start, size: nat, base: nat, sp: nat): (k: seq<Aux>)
    requires p.Ok() && |p.header| <= size
    ensures forall i :: 0 <= i < |k| ==> k[i].key != AT_NULL
  {
    Kept(p.auxv[..AuxCount(p.auxv)], p.info, base + size - |p.header|, base + sp)
  }

  function StackWords(p: Start, size: nat, base: nat, sp: nat): (ws: seq<int>)
    requires p.Ok() && |p.header| <= size
    ensures |ws| == 3 + |p.argv| + |p.envp| + 2 * |KeptOf(p, size, base, sp)|
  {
    var a := Addresses(p, size, base);
    Words(|p.argv|, a[..|p.argv|], a[|p.argv|..], KeptOf(p, size, base, sp))
  }

  /** The finished stack: sp is the index of the stack pointer; the words above it
      are argc, the string addresses with a null after each list and the kept
      auxiliary entries; at least sixteen zero bytes follow; then the strings and,
      at the very top, the program headers. */
  ghost predicate Laid(m: seq<Byte>, base: nat, sp: nat, p: Start)
    requires p.Ok()
  {
    && |p.header| <= |m|
    && var ws := StackWords(p, |m|, base, sp);
       var gap := |m| - |p.Upper()| - sp - 8 * |ws|;
       && NonNegative(ws) && gap >= 16
       && m == Image(sp, ws, gap, p.Upper())
  }

  // ------------------------------------------------------------------- loader

  class Loader {
    const mem: array<Byte>     // the stack segment
    const base: nat            // its address
    var stackTop: int          // index into mem
    var phdr: int              // address of the header copy

    constructor (mem: array<Byte>, base: nat)
      ensures this.mem == mem && this.base == base && stackTop == mem.Length
    {
      this.mem, this.base, stackTop, phdr := mem, base, mem.Length, 0;
    }

    /** memcpy of some bytes to just below `top`. */
    method CopyBelow(top: nat, bytes: seq<Byte>) returns (at: nat)
      requires |bytes| <= top <= mem.Length
      modifies mem
      ensures at == top - |bytes|
      ensures mem[..] == old(mem[..at]) + bytes + old(mem[top..])
    {
      at := top - |bytes|;
      ghost var before := mem[..];
      for i := 0 to |bytes|
        invariant mem[..] == before[..at] + bytes[..i] + before[at + i..]
      {
        mem[at + i] := bytes[i];
        assert bytes[..i + 1] == bytes[..i] + [bytes[i]];
      }
      assert bytes[..|bytes|] == bytes;
    }

    /** PUSH_ARG: store a word at `sp` and step over it. */
    method PushWord(sp: nat, value: nat) returns (next: nat)
      requires sp + 8 <= mem.Length
      modifies mem
      ensures next == sp + 8
      ensures mem[..] == old(mem[..sp]) + ToBytes(value, 8) + old(mem[sp + 8..])
    {
      next := sp + 8;
      var at := CopyBelow(next, ToBytes(value, 8));
    }

    /** Push strings one below the other; `pushed` are those pushed before.  It
        faults, `ok` false, iff they do not all fit. */
    method PushStrings(top: nat, ss: seq<CString>, ghost pushed: seq<CString>, ghost tail: seq<Byte>)
      returns (ok: bool, top': nat, ptrs: seq<int>)
      requires top == mem.Length - |tail| - |Packed(pushed)|
      requires mem[..] == Zeros(top) + Packed(pushed) + tail
      modifies mem
      ensures ok <==> |Packed(pushed + ss)| + |tail| <= mem.Length
      ensures ok ==> top' == mem.Length - |tail| - |Packed(pushed + ss)|
      ensures ok ==> mem[..] == Zeros(top') + Packed(pushed + ss) + tail
      ensures ok ==> Pointers(pushed, base, mem.Length - |tail|) + ptrs == Pointers(pushed + ss, base, mem.Length - |tail|)
    {
      hide Packed, Pointers;
      ok, top', ptrs := true, top, [];
      ghost var end := mem.Length - |tail|;
      assert pushed + ss[..0] == pushed;
      for i := 0 to |ss|
        invariant top' == end - |Packed(pushed + ss[..i])|
        invariant mem[..] == Zeros(top') + Packed(pushed + ss[..i]) + tail
        invariant Pointers(pushed, base, end) + ptrs == Pointers(pushed + ss[..i], base, end)
      {
        PackedOneMore(pushed, ss, i, base, end);
        PackedGrows(pushed, ss, i + 1);
        if |ss[i] + [0]| > top' {
          ok := false;
          return;
        }
        ghost var before := mem[..];
        ghost var above := top';
        top' := CopyBelow(top', ss[i] + [0]);
        PushedImage(before, above, ss[i] + [0], Packed(pushed + ss[..i]), tail);
        ptrs := ptrs + [base + top'];
      }
      assert ss[..|ss|] == ss;
    }

    /** Push one more word onto those already at `sp0`. */
    method PushOne(at: nat, v: nat, ghost sp0: nat, ghost ws: seq<int>, ghost gap: nat, ghost upper: seq<Byte>)
      returns (next: nat)
      requires forall i :: 0 <= i < |ws| ==> ws[i] >= 0
      requires at == sp0 + 8 * |ws| && gap >= 8 && mem[..] == Image(sp0, ws, gap, upper)
      modifies mem
      ensures next == at + 8 && mem[..] == Image(sp0, ws + [v], gap - 8, upper)
    {
      ImageLength(sp0, ws, gap, upper);
      ghost var before := mem[..];
      next := PushWord(at, v);
      ImagePush(before, sp0, ws, gap, upper, v);
    }

    /** Push a list of words. */
    method PushList(at: nat, list: seq<int>, ghost sp0: nat, ghost ws: seq<int>, ghost gap: nat, ghost upper: seq<Byte>)
      returns (next: nat)
      requires (forall i :: 0 <= i < |ws| ==> ws[i] >= 0) && forall i :: 0 <= i < |list| ==> list[i] >= 0
      requires at == sp0 + 8 * |ws| && gap >= 8 * |list| && mem[..] == Image(sp0, ws, gap, upper)
      modifies mem
      ensures next == at + 8 * |list| && mem[..] == Image(sp0, ws + list, gap - 8 * |list|, upper)
    {
      hide Image;
      next := at;
      assert ws + list[..0] == ws;
      for i := 0 to |list|
        invariant next == at + 8 * i
        invariant mem[..] == Image(sp0, ws + list[..i], gap - 8 * i, upper)
      {
        next := PushOne(next, list[i], sp0, ws + list[..i], gap - 8 * i, upper);
        assert ws + list[..i] + [list[i]] == ws + list[..i + 1];
      }
      assert list[..|list|] == list;
    }

    method PushPair(at: nat, a: Aux, ghost sp0: nat, ghost ws: seq<int>, ghost gap: nat, ghost upper: seq<Byte>)
      returns (next: nat)
      requires forall i :: 0 <= i < |ws| ==> ws[i] >= 0
      requires at == sp0 + 8 * |ws| && gap >= 16 && mem[..] == Image(sp0, ws, gap, upper)
      modifies mem
      ensures next == at + 16 && mem[..] == Image(sp0, ws + [a.key, a.value], gap - 16, upper)
    {
      next := PushList(at, [a.key, a.value], sp0, ws, gap, upper);
    }

    /** Push one entry of the auxiliary vector if it is kept. */
    method PushIfKept(at: nat, aux: Aux, info: Info, sp: nat, ghost kept: seq<Aux>, ghost sp0: nat, ghost ws: seq<int>,
                      ghost gap: nat, ghost upper: seq<Byte>) returns (next: nat, ghost kept': seq<Aux>)
      requires phdr >= 0 && gap >= 16 * |kept| + 16
      requires at == sp0 + 8 * |ws| + 16 * |kept| && AuxImage(mem[..], sp0, ws, kept, gap, upper)
      modifies mem
      ensures kept' == kept + KeptEntry(aux, info, phdr, sp) && |kept'| <= |kept| + 1
      ensures next == sp0 + 8 * |ws| + 16 * |kept'| && AuxImage(mem[..], sp0, ws, kept', gap, upper)
    {
      hide Image, Flatten, AuxValue;
      next, kept' := at, kept;
      var v := AuxValue(aux.key, info, phdr, sp);
      if v.Some? {
        var a := Aux(aux.key, v.value);
        next := PushPair(at, a, sp0, ws + Flatten(kept), gap - 16 * |kept|, upper);
        FlattenOneMore(ws, kept, a);
        kept' := kept + [a];
      }
    }

    /** Push the kept entries of the auxiliary vector. */
    method PushAux(at: nat, auxv: seq<Aux>, info: Info, sp: nat, ghost sp0: nat, ghost ws: seq<int>, ghost gap: nat,
                   ghost upper: seq<Byte>) returns (next: nat)
      requires phdr >= 0 && at == sp0 + 8 * |ws| && gap >= 16 * |auxv|
      requires AuxImage(mem[..], sp0, ws, [], gap, upper)
      modifies mem
      ensures next == at + 16 * |Kept(auxv, info, phdr, sp)|
      ensures AuxImage(mem[..], sp0, ws, Kept(auxv, info, phdr, sp), gap, upper)
    {
      hide AuxImage, Kept, KeptEntry;
      KeptNone(info, phdr, sp);
      next := at;
      ghost var kept: seq<Aux> := [];
      for i := 0 to |auxv|
        invariant kept == Kept(auxv[..i], info, phdr, sp) && |kept| <= i
        invariant next == at + 16 * |kept| && AuxImage(mem[..], sp0, ws, kept, gap, upper)
      {
        KeptOneMore(auxv, i, info, phdr, sp);
        next, kept := PushIfKept(next, auxv[i], info, sp, kept, sp0, ws, gap, upper);
      }
      assert auxv[..|auxv|] == auxv;
    }

    /** Number of auxiliary entries, the terminating one included. */
    method CountAux(auxv: seq<Aux>) returns (auxc: nat)
      requires Terminated(auxv)
      ensures auxc == AuxCount(auxv)
    {
      auxc := 1;
      while auxv[auxc - 1].key != AT_NULL
        invariant 1 <= auxc <= AuxCount(auxv)
        decreases |auxv| - auxc
      {
        auxc := auxc + 1;
      }
    }

    /** Push argc, both lists of addresses and the auxiliary vector. */
    method PushWords(sp0: nat, args: seq<int>, envs: seq<int>, auxv: seq<Aux>, info: Info, ghost gap: nat,
                     ghost upper: seq<Byte>)
      requires phdr >= 0 && gap >= 8 * (3 + |args| + |envs|) + 16 * |auxv|
      requires (forall i :: 0 <= i < |args| ==> args[i] >= 0) && forall i :: 0 <= i < |envs| ==> envs[i] >= 0
      requires mem[..] == Image(sp0, [], gap, upper)
      modifies mem
      ensures var ws := Words(|args|, args, envs, Kept(auxv, info, phdr, base + sp0));
              (forall i :: 0 <= i < |ws| ==> ws[i] >= 0) && gap >= 8 * |ws|
              && mem[..] == Image(sp0, ws, gap - 8 * |ws|, upper)
    {
      hide Image, Kept;
      ghost var ws: seq<int> := [|args|];
      assert [] + ws == ws;
      var sp := PushOne(sp0, |args|, sp0, [], gap, upper);
      sp := PushList(sp, args, sp0, ws, gap - 8, upper);
      ws := ws + args;
      sp := PushOne(sp, 0, sp0, ws, gap - 8 * |ws|, upper);
      ws := ws + [0];
      sp := PushList(sp, envs, sp0, ws, gap - 8 * |ws|, upper);
      ws := ws + envs;
      sp := PushOne(sp, 0, sp0, ws, gap - 8 * |ws|, upper);
      ws := ws + [0];
      assert ws + Flatten([]) == ws;
      sp := PushAux(sp, auxv, info, base + sp0, sp0, ws, gap - 8 * |ws|, upper);
      assert ws + Flatten(Kept(auxv, info, phdr, base + sp0)) == Words(|args|, args, envs, Kept(auxv, info, phdr, base + sp0));
    }

    /** Copy the program headers to the top and push all strings below them. */
    method PushAllStrings(header: seq<Byte>, argv: seq<CString>, envp: seq<CString>)
      returns (ok: bool, top: nat, args: seq<int>, envs: seq<int>)
      requires mem[..] == Zeros(mem.Length)
      modifies this`phdr, mem
      ensures ok <==> |header| + |Packed(argv + envp)| <= mem.Length
      ensures ok ==> phdr == base + mem.Length - |header| && top == mem.Length - |header| - |Packed(argv + envp)|
      ensures ok ==> mem[..] == Zeros(top) + Packed(argv + envp) + header
      ensures ok ==> |args| == |argv| && |envs| == |envp|
      ensures ok ==> args + envs == Pointers(argv + envp, base, mem.Length - |header|)
    {
      hide Packed, Pointers;
      ok, top, args, envs := false, 0, [], [];
      if |header| > mem.Length {
        return;
      }
      top := CopyBelow(mem.Length, header);
      phdr := base + top;
      PackedNone(base, top);
      assert mem[..] == Zeros(top) + Packed([]) + header;
      assert [] + argv == argv;
      PackedPrefix(argv, envp);
      ok, top, args := PushStrings(top, argv, [], header);
      if !ok {
        return;
      }
      ok, top, envs := PushStrings(top, envp, argv, header);
    }

    /** Lay out the stack and return the stack pointer.  Nothing is mapped below the
        segment: what does not fit makes a store fault, `ok` false. */
    method InitializeStack(p: Start) returns (ok: bool, r: int)
      requires stackTop == mem.Length && mem[..] == Zeros(mem.Length) && base % 16 == 0 && p.Ok()
      modifies this, mem
      ensures ok <==> 0 <= Bottom(mem.Length - |p.Upper()|, |p.argv|, |p.envp|, AuxCount(p.auxv))
      ensures ok ==> stackTop == Bottom(mem.Length - |p.Upper()|, |p.argv|, |p.envp|, AuxCount(p.auxv))
      ensures ok ==> 0 <= stackTop && r == base + stackTop && r % 16 == 0 && phdr == base + mem.Length - |p.header|
      ensures ok ==> Laid(mem[..], base, stackTop, p)
    {
      hide Image, Packed, Pointers, Kept, Laid, Words, Bottom;
      ghost var upper := p.Upper();
      var auxc := CountAux(p.auxv);
      BottomRoom(mem.Length - |upper|, |p.argv|, |p.envp|, auxc);
      r := 0;
      var top, args, envs;
      ok, top, args, envs := PushAllStrings(p.header, p.argv, p.envp);
      if !ok {
        return;
      }
      stackTop := Bottom(top, |p.argv|, |p.envp|, auxc);
      if stackTop < 0 {
        ok := false;
        return;
      }
      ghost var gap := top - stackTop;
      GapIsZeros(mem[..], top, stackTop, Packed(p.argv + p.envp), p.header);
      PointersInside(p.argv + p.envp, base, mem.Length - |p.header|);
      PrefixNonNeg(args, envs, base);
      PushWords(stackTop, args, envs, p.auxv[..auxc], p.info, gap, upper);
      r := base + stackTop;
      LaidIntro(mem[..], base, stackTop, p, args, envs);
    }
  }

  lemma PrefixNonNeg(args: seq<int>, envs: seq<int>, base: nat)
    requires forall i :: 0 <= i < |args + envs| ==> base <= (args + envs)[i]
    ensures (forall i :: 0 <= i < |args| ==> args[i] >= 0) && forall i :: 0 <= i < |envs| ==> envs[i] >= 0
  {
    assert forall i :: 0 <= i < |args| ==> args[i] == (args + envs)[i];
    assert forall i :: 0 <= i < |envs| ==> envs[i] == (args + envs)[|args| + i];
  }

  lemma GapIsZeros(m: seq<Byte>, top: nat, sp: nat, packed: seq<Byte>, header: seq<Byte>)
    requires m == Zeros(top) + packed + header && sp <= top
    ensures m == Image(sp, [], top - sp, packed + header)
  {
    assert Zeros(top) == Zeros(sp) + Zeros(top - sp);
    assert WordBytes([]) == [];
  }

  lemma LaidIntro(m: seq<Byte>, base: nat, sp: nat, p: Start, args: seq<int>, envs: seq<int>)
    requires p.Ok() && |p.Upper()| <= |m|
    requires |args| == |p.argv| && args + envs == Pointers(p.argv + p.envp, base, |m| - |p.header|)
    requires sp + 8 * (3 + |p.argv| + |p.envp| + 2 * AuxCount(p.auxv)) <= |m| - |p.Upper()|
    requires var ws := Words(|p.argv|, args, envs,
                             Kept(p.auxv[..AuxCount(p.auxv)], p.info, base + |m| - |p.header|, base + sp));
             var gap := |m| - |p.Upper()| - sp;
             (forall i :: 0 <= i < |ws| ==> ws[i] >= 0) && gap >= 8 * |ws|
             && m == Image(sp, ws, gap - 8 * |ws|, p.Upper())
    ensures Laid(m, base, sp, p)
  {
    hide Image, Packed, Pointers, Kept, Words;
    var ptrs := args + envs;
    assert args == ptrs[..|p.argv|] && envs == ptrs[|p.argv|..];
    KeptDropsNull(p.auxv, p.info, base + |m| - |p.header|, base + sp);
  }

  lemma PackedNone(base: nat, end: int)
    ensures Packed([]) == [] && Pointers([], base, end) == []
  {
  }

  lemma PackedPrefix(a: seq<CString>, b: seq<CString>)
    ensures |Packed(a)| <= |Packed(a + b)|
  {
    assert a + b[..0] == a;
    PackedGrows(a, b, 0);
  }

  lemma {:induction false} PointersInside(ss: seq<CString>, base: nat, end: nat)
    requires |Packed(ss)| <= end
    ensures forall i :: 0 <= i < |ss| ==> base <= Pointers(ss, base, end)[i] < base + end
  {
    if ss != [] {
      PointersInside(ss[..|ss| - 1], base, end);
    }
  }

  /** The stack pointer is the highest multiple of sixteen that leaves room for the
      words and for the unused copy of the vector below the strings. */
  lemma BottomIsHighest(top: int, argc: nat, envc: nat, auxc: nat)
    ensures var b, room := Bottom(top, argc, envc, auxc), 16 * auxc + 8 * (argc + envc + 3 + 2 * auxc);
            b % 16 == 0 && b + room <= top < b + room + 16
  {
    var x := top - auxc * 16;
    var m := 1 + argc + 1 + envc + 1 + 2 * auxc;
    assert Align(x, 8) == x - x % 8 && Align(x, 8) % 8 == 0;
    assert (Align(x, 8) - m * 8) % 8 == 0;
    var y := Align(x, 8) - m * 8;
    assert y % 16 == 0 || y % 16 == 8;
  }

  lemma BottomRoom(top: int, argc: nat, envc: nat, auxc: nat)
    ensures Bottom(top, argc, envc, auxc) % 16 == 0
    ensures Bottom(top, argc, envc, auxc) + 8 * (3 + argc + envc + 2 * auxc) + 16 * auxc <= top
  {
  }

  /** The terminating entry is never kept. */
  lemma KeptDropsNull(auxv: seq<Aux>, info: Info, phdr: nat, sp: nat)
    requires Terminated(auxv)
    ensures |Kept(auxv[..AuxCount(auxv)], info, phdr, sp)| < AuxCount(auxv)
  {
    var n := AuxCount(auxv);
    assert auxv[..n][..n - 1] == auxv[..n - 1];
    assert auxv[..n][n - 1].key == AT_NULL;
  }

  lemma ImageLength(sp: nat, ws: seq<int>, gap: nat, upper: seq<Byte>)
    requires forall i :: 0 <= i < |ws| ==> ws[i] >= 0
    ensures |Image(sp, ws, gap, upper)| == sp + 8 * |ws| + gap + |upper|
  {
  }

  lemma ImagePush(before: seq<Byte>, sp: nat, ws: seq<int>, gap: nat, upper: seq<Byte>, v: nat)
    requires forall i :: 0 <= i < |ws| ==> ws[i] >= 0
    requires gap >= 8 && before == Image(sp, ws, gap, upper)
    ensures var at := sp + 8 * |ws|;
            |before| >= at + 8 && before[..at] + ToBytes(v, 8) + before[at + 8..] == Image(sp, ws + [v], gap - 8, upper)
  {
    hide WordBytes, ToBytes, Zeros;
    var front, b := Zeros(sp) + WordBytes(ws), ToBytes(v, 8);
    ImageOneMore(sp, ws, gap, upper, v);
    Overwrite(front, gap, upper, b);
  }

  lemma ImageOneMore(sp: nat, ws: seq<int>, gap: nat, upper: seq<Byte>, v: nat)
    requires (forall i :: 0 <= i < |ws| ==> ws[i] >= 0) && gap >= 8
    ensures Image(sp, ws + [v], gap - 8, upper)
            == ((Zeros(sp) + WordBytes(ws)) + ToBytes(v, 8)) + Zeros(gap - 8) + upper
  {
    hide WordBytes, ToBytes, Zeros;
    WordBytesOneMore(ws, v);
    assert (Zeros(sp) + WordBytes(ws)) + ToBytes(v, 8) == Zeros(sp) + (WordBytes(ws) + ToBytes(v, 8));
  }

  lemma WordBytesOneMore(ws: seq<int>, v: nat)
    requires forall i :: 0 <= i < |ws| ==> ws[i] >= 0
    ensures WordBytes(ws + [v]) == WordBytes(ws) + ToBytes(v, 8)
  {
    assert (ws + [v])[..|ws|] == ws;
  }

  /** Overwriting the first zeros of a gap. */
  lemma Overwrite(front: seq<Byte>, gap: nat, upper: seq<Byte>, b: seq<Byte>)
    requires |b| <= gap
    ensures var m := front + Zeros(gap) + upper;
            m[..|front|] + b + m[|front| + |b|..] == (front + b) + Zeros(gap - |b|) + upper
  {
    var m := front + Zeros(gap) + upper;
    assert m[..|front|] == front;
    assert m[|front| + |b|..] == Zeros(gap - |b|) + upper;
  }

  lemma KeptNone(info: Info, phdr: nat, sp: nat)
    ensures Kept([], info, phdr, sp) == []
  {
  }

  lemma KeptOneMore(auxv: seq<Aux>, i: nat, info: Info, phdr: nat, sp: nat)
    requires i < |auxv|
    ensures Kept(auxv[..i + 1], info, phdr, sp) == Kept(auxv[..i], info, phdr, sp) + KeptEntry(auxv[i], info, phdr, sp)
  {
    assert auxv[..i + 1][..i] == auxv[..i];
  }

  lemma FlattenOneMore(ws: seq<int>, kept: seq<Aux>, a: Aux)
    ensures (ws + Flatten(kept)) + [a.key, a.value] == ws + Flatten(kept + [a])
  {
    assert (kept + [a])[..|kept|] == kept;
  }

  lemma PackedOneMore(pushed: seq<CString>, ss: seq<CString>, i: nat, base: nat, end: int)
    requires i < |ss|
    ensures Packed(pushed + ss[..i + 1]) == (ss[i] + [0]) + Packed(pushed + ss[..i])
    ensures Pointers(pushed + ss[..i + 1], base, end)
            == Pointers(pushed + ss[..i], base, end) + [base + end - |Packed(pushed + ss[..i + 1])|]
  {
    var all := pushed + ss[..i + 1];
    assert all[..|all| - 1] == pushed + ss[..i];
    assert all[|all| - 1] == ss[i];
  }

  lemma {:induction false} PackedGrows(pushed: seq<CString>, ss: seq<CString>, i: nat)
    requires i <= |ss|
    ensures |Packed(pushed + ss[..i])| <= |Packed(pushed + ss)|
    decreases |ss| - i
  {
    if i < |ss| {
      PackedOneMore(pushed, ss, i, 0, 0);
      PackedGrows(pushed, ss, i + 1);
    } else {
      assert ss[..i] == ss;
    }
  }

  lemma PushedImage(before: seq<Byte>, top: nat, bytes: seq<Byte>, packed: seq<Byte>, tail: seq<Byte>)
    requires |bytes| <= top && before == Zeros(top) + packed + tail
    ensures before[..top - |bytes|] + bytes + before[top..] == Zeros(top - |bytes|) + (bytes + packed) + tail
  {
    assert before[..top - |bytes|] == Zeros(top - |bytes|);
    assert before[top..] == packed + tail;
  }

  // ------------------------------------------------------------ the guest's walk

  /** The 64-bit word at index i. */
  function WordAt(m: seq<Byte>, i: nat): int {
    if i + 8 <= |m| then Unsigned(m[i..i + 8]) else 0
  }

  /** Words up to the next zero. */
  function ReadList(m: seq<Byte>, i: nat): seq<int>
    decreases |m| - i
  {
    if i >= |m| || WordAt(m, i) == 0 then [] else [WordAt(m, i)] + ReadList(m, i + 8)
  }

  /** Key and value pairs up to a zero key. */
  function ReadPairs(m: seq<Byte>, i: nat): seq<(int, int)>
    decreases |m| - i
  {
    if i >= |m| || WordAt(m, i) == 0 then []
    else [(WordAt(m, i), WordAt(m, i + 8))] + ReadPairs(m, i + 16)
  }

  /** Bytes up to the next zero. */
  function ReadString(m: seq<Byte>, i: int): seq<Byte>
    decreases |m| - i
  {
    if !(0 <= i < |m|) || m[i] == 0 then [] else [m[i]] + ReadString(m, i + 1)
  }

  function ReadStrings(m: seq<Byte>, base: nat, ptrs: seq<int>): (ss: seq<seq<Byte>>)
    ensures |ss| == |ptrs|
  {
    seq(|ptrs|, i requires 0 <= i < |ptrs| => ReadString(m, ptrs[i] - base))
  }

  /** What a guest finds from its stack pointer up. */
  datatype Seen = Seen(argc: int, argv: seq<seq<Byte>>, envp: seq<seq<Byte>>, aux: seq<(int, int)>)

  function Walk(m: seq<Byte>, base: nat, sp: nat): Seen {
    var argv := ReadList(m, sp + 8);
    var envAt := sp + 8 + 8 * (|argv| + 1);
    var envp := ReadList(m, envAt);
    Seen(WordAt(m, sp), ReadStrings(m, base, argv), ReadStrings(m, base, envp),
         ReadPairs(m, envAt + 8 * (|envp| + 1)))
  }

  function Pairs(aux: seq<Aux>): (p: seq<(int, int)>)
    ensures |p| == |aux|
  {
    seq(|aux|, i requires 0 <= i < |aux| => (aux[i].key, aux[i].value))
  }

  lemma {:induction false} WordBytesAt(ws: seq<int>, i: nat)
    requires (forall k :: 0 <= k < |ws| ==> ws[k] >= 0) && i < |ws|
    ensures WordBytes(ws)[8 * i..8 * i + 8] == ToBytes(ws[i], 8)
  {
    var n := |ws| - 1;
    if i < n {
      WordBytesAt(ws[..n], i);
      assert WordBytes(ws)[8 * i..8 * i + 8] == WordBytes(ws[..n])[8 * i..8 * i + 8];
    }
  }

  predicate Fits64(ws: seq<int>) {
    forall i :: 0 <= i < |ws| ==> 0 <= ws[i] < TOP64
  }

  /** The words of an image read back, and the zero behind them. */
  lemma WordInImage(sp: nat, ws: seq<int>, gap: nat, upper: seq<Byte>, i: nat)
    requires Fits64(ws) && i <= |ws| && gap >= 8
    ensures WordAt(Image(sp, ws, gap, upper), sp + 8 * i) == if i < |ws| then ws[i] else 0
  {
    var m := Image(sp, ws, gap, upper);
    var at := sp + 8 * i;
    ImageLength(sp, ws, gap, upper);
    if i < |ws| {
      assert m[at..at + 8] == WordBytes(ws)[8 * i..8 * i + 8];
      WordBytesAt(ws, i);
      ModulusIsPower(W8);
      UnsignedToBytes(ws[i], 8);
    } else {
      assert m[at..at + 8] == Zeros(8);
      UnsignedZeros(Zeros(8));
    }
  }

  lemma {:induction false} ReadsList(m: seq<Byte>, at: nat, list: seq<int>)
    requires at + 8 * |list| < |m|
    requires forall i :: 0 <= i < |list| ==> WordAt(m, at + 8 * i) == list[i] != 0
    requires WordAt(m, at + 8 * |list|) == 0
    ensures ReadList(m, at) == list
    decreases |list|
  {
    hide WordAt;
    if list != [] {
      assert WordAt(m, at + 8 * 0) == list[0];
      forall i | 0 <= i < |list| - 1 ensures WordAt(m, at + 8 + 8 * i) == list[1..][i] {
        assert WordAt(m, at + 8 * (i + 1)) == list[i + 1];
      }
      ReadsList(m, at + 8, list[1..]);
    }
  }

  lemma {:induction false} ReadsPairs(m: seq<Byte>, at: nat, aux: seq<Aux>)
    requires at + 16 * |aux| < |m|
    requires forall i :: 0 <= i < |aux| ==> WordAt(m, at + 16 * i) == aux[i].key != 0 && WordAt(m, at + 16 * i + 8) == aux[i].value
    requires WordAt(m, at + 16 * |aux|) == 0
    ensures ReadPairs(m, at) == Pairs(aux)
    decreases |aux|
  {
    hide WordAt;
    if aux != [] {
      assert WordAt(m, at + 16 * 0) == aux[0].key && WordAt(m, at + 16 * 0 + 8) == aux[0].value;
      forall i | 0 <= i < |aux| - 1
        ensures WordAt(m, at + 16 + 16 * i) == aux[1..][i].key && WordAt(m, at + 16 + 16 * i + 8) == aux[1..][i].value
      {
        assert WordAt(m, at + 16 * (i + 1)) == aux[i + 1].key;
        assert WordAt(m, at + 16 * (i + 1) + 8) == aux[i + 1].value;
      }
      ReadsPairs(m, at + 16, aux[1..]);
      assert Pairs(aux) == [(aux[0].key, aux[0].value)] + Pairs(aux[1..]);
    }
  }

  lemma {:induction false} ReadsString(front: seq<Byte>, s: CString, back: seq<Byte>)
    ensures ReadString(front + (s + [0] + back), |front|) == s
    decreases |s|
  {
    var m := front + (s + [0] + back);
    if s != [] {
      assert m == (front + [s[0]]) + (s[1..] + [0] + back);
      ReadsString(front + [s[0]], s[1..], back);
    }
  }

  /** Each string is found whole where its pointer points. */
  lemma {:induction false} StringInPacked(front: seq<Byte>, ss: seq<CString>, back: seq<Byte>, k: nat)
    requires k < |ss|
    ensures |Packed(ss[..k + 1])| <= |Packed(ss)|
    ensures ReadString(front + Packed(ss) + back, |front| + |Packed(ss)| - |Packed(ss[..k + 1])|) == ss[k]
    decreases |ss|
  {
    var n := |ss| - 1;
    var top := ss[n] + [0];
    if k == n {
      assert ss[..k + 1] == ss;
      assert front + Packed(ss) + back == front + (ss[n] + [0] + (Packed(ss[..n]) + back));
      ReadsString(front, ss[n], Packed(ss[..n]) + back);
    } else {
      assert front + Packed(ss) + back == (front + top) + Packed(ss[..n]) + back;
      assert ss[..n][..k + 1] == ss[..k + 1];
      StringInPacked(front + top, ss[..n], back, k);
    }
  }

  lemma {:induction false} PointerIs(ss: seq<CString>, base: nat, end: int, k: nat)
    requires k < |ss|
    ensures Pointers(ss, base, end)[k] == base + end - |Packed(ss[..k + 1])|
  {
    var n := |ss| - 1;
    if k < n {
      PointerIs(ss[..n], base, end, k);
      assert ss[..n][..k + 1] == ss[..k + 1];
    } else {
      assert ss[..k + 1] == ss;
    }
  }

  lemma {:induction false} FlattenAt(aux: seq<Aux>, i: nat)
    requires i < |aux|
    ensures Flatten(aux)[2 * i] == aux[i].key && Flatten(aux)[2 * i + 1] == aux[i].value
  {
    if i < |aux| - 1 {
      FlattenAt(aux[..|aux| - 1], i);
    }
  }

  /** The i-th word from sp. */
  function WordOf(m: seq<Byte>, sp: nat, i: nat): int {
    WordAt(m, sp + 8 * i)
  }

  /** Memory shows the words from sp up, with a zero behind them. */
  predicate Shows(m: seq<Byte>, sp: nat, ws: seq<int>) {
    && sp + 8 * |ws| < |m|
    && forall i :: 0 <= i <= |ws| ==> WordOf(m, sp, i) == if i < |ws| then ws[i] else 0
  }

  /** A run of nonzero words with a zero behind it is read as a list. */
  lemma ShownList(m: seq<Byte>, sp: nat, ws: seq<int>, from: nat, list: seq<int>)
    requires Shows(m, sp, ws) && from + |list| < |ws|
    requires (forall i :: 0 <= i < |list| ==> ws[from + i] == list[i] != 0) && ws[from + |list|] == 0
    ensures ReadList(m, sp + 8 * from) == list
  {
    hide WordAt;
    forall i | 0 <= i < |list| ensures WordAt(m, sp + 8 * from + 8 * i) == list[i] {
      assert WordOf(m, sp, from + i) == ws[from + i];
    }
    assert WordOf(m, sp, from + |list|) == 0;
    ReadsList(m, sp + 8 * from, list);
  }

  lemma ShownPairs(m: seq<Byte>, sp: nat, ws: seq<int>, from: nat, kept: seq<Aux>)
    requires Shows(m, sp, ws) && from + 2 * |kept| == |ws|
    requires forall i :: 0 <= i < |kept| ==> ws[from + 2 * i] == kept[i].key != 0 && ws[from + 2 * i + 1] == kept[i].value
    ensures ReadPairs(m, sp + 8 * from) == Pairs(kept)
  {
    hide WordAt;
    var at := sp + 8 * from;
    forall i | 0 <= i < |kept|
      ensures WordAt(m, at + 16 * i) == kept[i].key && WordAt(m, at + 16 * i + 8) == kept[i].value
    {
      assert WordOf(m, sp, from + 2 * i) == kept[i].key;
      assert WordOf(m, sp, from + 2 * i + 1) == kept[i].value;
    }
    assert WordOf(m, sp, |ws|) == 0;
    ReadsPairs(m, at, kept);
  }

  lemma WalkArgv(m: seq<Byte>, sp: nat, argv: seq<int>, envp: seq<int>, kept: seq<Aux>)
    requires Shows(m, sp, Words(|argv|, argv, envp, kept))
    requires forall i :: 0 <= i < |argv| ==> argv[i] != 0
    ensures WordAt(m, sp) == |argv| && ReadList(m, sp + 8) == argv
  {
    hide WordAt, Shows, ReadList, Flatten;
    var ws := Words(|argv|, argv, envp, kept);
    ShownHead(m, sp, ws);
    assert ws[1..1 + |argv|] == argv;
    ShownList(m, sp, ws, 1, argv);
  }

  lemma WalkEnvp(m: seq<Byte>, sp: nat, argv: seq<int>, envp: seq<int>, kept: seq<Aux>)
    requires Shows(m, sp, Words(|argv|, argv, envp, kept))
    requires forall i :: 0 <= i < |envp| ==> envp[i] != 0
    ensures ReadList(m, sp + 8 * (2 + |argv|)) == envp
  {
    hide WordAt, Shows, ReadList, Flatten;
    var ws := Words(|argv|, argv, envp, kept);
    assert ws[2 + |argv|..2 + |argv| + |envp|] == envp;
    ShownList(m, sp, ws, 2 + |argv|, envp);
  }

  lemma WalkAux(m: seq<Byte>, sp: nat, argv: seq<int>, envp: seq<int>, kept: seq<Aux>)
    requires Shows(m, sp, Words(|argv|, argv, envp, kept))
    requires forall i :: 0 <= i < |kept| ==> kept[i].key != 0
    ensures ReadPairs(m, sp + 8 * (3 + |argv| + |envp|)) == Pairs(kept)
  {
    hide WordAt, Shows, ReadPairs, Flatten;
    var ws := Words(|argv|, argv, envp, kept);
    var from := 3 + |argv| + |envp|;
    assert ws[from..] == Flatten(kept);
    forall i | 0 <= i < |kept| ensures ws[from + 2 * i] == kept[i].key && ws[from + 2 * i + 1] == kept[i].value {
      FlattenAt(kept, i);
      assert ws[from..][2 * i] == ws[from + 2 * i];
    }
    ShownPairs(m, sp, ws, from, kept);
  }

  lemma ShownHead(m: seq<Byte>, sp: nat, ws: seq<int>)
    requires Shows(m, sp, ws) && ws != []
    ensures WordAt(m, sp) == ws[0]
  {
    hide WordAt;
    assert WordOf(m, sp, 0) == ws[0];
  }

  const TOP64 := 0x1_0000_0000_0000_0000

  lemma {:induction false} KeptFits(auxv: seq<Aux>, info: Info, phdr: nat, sp: nat)
    requires info.phent < TOP64 && info.phnum < TOP64 && info.entry < TOP64 && phdr < TOP64 && sp < TOP64
    ensures forall i :: 0 <= i < |Kept(auxv, info, phdr, sp)| ==>
              Kept(auxv, info, phdr, sp)[i].key < TOP64 && Kept(auxv, info, phdr, sp)[i].value < TOP64
  {
    if auxv != [] {
      KeptFits(auxv[..|auxv| - 1], info, phdr, sp);
    }
  }

  lemma {:induction false} FlattenFits(aux: seq<Aux>)
    requires forall i :: 0 <= i < |aux| ==> aux[i].key < TOP64 && aux[i].value < TOP64
    ensures Fits64(Flatten(aux))
  {
    if aux != [] {
      FlattenFits(aux[..|aux| - 1]);
    }
  }

  /** The strings of a finished stack, read through their pointers. */
  lemma StringsReadBack(front: seq<Byte>, ss: seq<CString>, back: seq<Byte>, base: nat)
    ensures var m := front + Packed(ss) + back;
            ReadStrings(m, base, Pointers(ss, base, |front| + |Packed(ss)|)) == ss
  {
    var m := front + Packed(ss) + back;
    var ptrs := Pointers(ss, base, |front| + |Packed(ss)|);
    hide Packed, Pointers;
    forall k | 0 <= k < |ss| ensures ReadString(m, ptrs[k] - base) == ss[k] {
      PointerIs(ss, base, |front| + |Packed(ss)|, k);
      StringInPacked(front, ss, back, k);
    }
  }

  /** Every word of a finished stack fits in 64 bits. */
  lemma WordsFit(argv: seq<int>, envp: seq<int>, kept: seq<Aux>)
    requires |argv| < TOP64 && Fits64(argv) && Fits64(envp) && Fits64(Flatten(kept))
    ensures Fits64(Words(|argv|, argv, envp, kept))
  {
    hide Flatten;
  }

  lemma ImageShows(sp: nat, ws: seq<int>, gap: nat, upper: seq<Byte>)
    requires Fits64(ws) && gap >= 8
    ensures Shows(Image(sp, ws, gap, upper), sp, ws)
  {
    var m := Image(sp, ws, gap, upper);
    ImageLength(sp, ws, gap, upper);
    hide Image, WordAt, Fits64;
    forall i | 0 <= i <= |ws| ensures WordOf(m, sp, i) == if i < |ws| then ws[i] else 0 {
      WordInImage(sp, ws, gap, upper, i);
    }
  }

  lemma ReadStringsSplit(m: seq<Byte>, base: nat, ptrs: seq<int>, k: nat)
    requires k <= |ptrs|
    ensures ReadStrings(m, base, ptrs[..k]) == ReadStrings(m, base, ptrs)[..k]
    ensures ReadStrings(m, base, ptrs[k..]) == ReadStrings(m, base, ptrs)[k..]
  {
    hide ReadString;
  }

  lemma WalkIs(m: seq<Byte>, base: nat, sp: nat, args: seq<int>, envs: seq<int>, kept: seq<Aux>)
    requires Shows(m, sp, Words(|args|, args, envs, kept))
    requires (forall i :: 0 <= i < |args| ==> args[i] != 0) && (forall i :: 0 <= i < |envs| ==> envs[i] != 0)
    requires forall i :: 0 <= i < |kept| ==> kept[i].key != 0
    ensures Walk(m, base, sp) == Seen(|args|, ReadStrings(m, base, args), ReadStrings(m, base, envs), Pairs(kept))
  {
    hide WordAt, Shows, Words, ReadList, ReadPairs, ReadStrings, Pairs;
    WalkArgv(m, sp, args, envs, kept);
    WalkEnvp(m, sp, args, envs, kept);
    WalkAux(m, sp, args, envs, kept);
    var envAt := sp + 8 + 8 * (|args| + 1);
    assert envAt == sp + 8 * (2 + |args|);
    assert ReadList(m, envAt) == envs;
    assert envAt + 8 * (|envs| + 1) == sp + 8 * (3 + |args| + |envs|);
    assert ReadPairs(m, envAt + 8 * (|envs| + 1)) == Pairs(kept);
  }

  /** Program, headers and stack fit in a 64-bit address space. */
  predicate Addressable(p: Start, size: nat, base: nat) {
    && 0 < base && base + size < TOP64
    && p.info.phent < TOP64 && p.info.phnum < TOP64 && p.info.entry < TOP64
  }

  /** A guest that walks memory from the returned stack pointer recovers argc, the
      argument and environment strings in order, and exactly the kept auxiliary
      entries: the list ends because the words behind it were never written. */
  lemma GuestReadsBack(m: seq<Byte>, base: nat, sp: nat, p: Start)
    requires p.Ok() && Laid(m, base, sp, p) && Addressable(p, |m|, base)
    ensures |p.header| <= |m| &&
            Walk(m, base, sp) == Seen(|p.argv|, p.argv, p.envp, Pairs(KeptOf(p, |m|, base, sp)))
  {
    var a, n := Addresses(p, |m|, base), |p.argv|;
    LaidSize(m, base, sp, p);
    LaidFits(m, base, sp, p);
    LaidShows(m, base, sp, p);
    ShowsWalk(m, base, sp, p, a[..n], a[n..]);
    hide Walk, ReadStrings, Pairs, Laid, Addresses, KeptOf, StackWords, Shows;
    ReadStringsSplit(m, base, a, n);
    assert (p.argv + p.envp)[..n] == p.argv && (p.argv + p.envp)[n..] == p.envp;
  }

  // ------------------------------------- what the auxiliary vector tells a guest

  /** The keys a guest finds: those of the vector before its first zero that the
      loader knows, in order. */
  function GuestKeys(auxv: seq<Aux>): seq<int> {
    if auxv == [] || auxv[0].key == 0 then [] else
    (if auxv[0].key in {3, 4, 5, 6, 9, 23, 25} then [auxv[0].key] else []) + GuestKeys(auxv[1..])
  }

  function Keys(aux: seq<(int, int)>): (k: seq<int>)
    ensures |k| == |aux|
  {
    seq(|aux|, i requires 0 <= i < |aux| => aux[i].0)
  }

  /** What the value beside a key must be: the address of the program headers,
      their size and number, the page size, the entry point, zero, the stack
      pointer. */
  predicate Tells(key: int, value: int, m: seq<Byte>, base: nat, sp: nat, p: Start) {
    && (key == 3 ==> base <= value && value - base + |p.header| <= |m|
                     && m[value - base..value - base + |p.header|] == p.header)
    && (key == 4 ==> value == p.info.phent)
    && (key == 5 ==> value == p.info.phnum)
    && (key == 6 ==> value == 4096)
    && (key == 9 ==> value == p.info.entry)
    && (key == 23 ==> value == 0)
    && (key == 25 ==> value == base + sp)
  }

  lemma {:induction false} KeptConcat(a: seq<Aux>, b: seq<Aux>, info: Info, phdr: nat, sp: nat)
    ensures Kept(a + b, info, phdr, sp) == Kept(a, info, phdr, sp) + Kept(b, info, phdr, sp)
  {
    hide KeptEntry;
    if b == [] {
      assert a + b == a;
    } else {
      assert (a + b)[..|a + b| - 1] == a + b[..|b| - 1];
      KeptConcat(a, b[..|b| - 1], info, phdr, sp);
    }
  }

  lemma {:induction false} KeptKeys(auxv: seq<Aux>, info: Info, phdr: nat, sp: nat)
    requires Terminated(auxv)
    ensures Keys(Pairs(Kept(auxv[..AuxCount(auxv)], info, phdr, sp))) == GuestKeys(auxv)
  {
    hide Kept, KeptEntry, Keys, Pairs, Terminated;
    var n, rest := AuxCount(auxv), auxv[1..];
    OneKept(auxv[0], info, phdr, sp);
    if auxv[0].key == 0 {
      assert auxv[..n] == [auxv[0]];
    } else {
      RestTerminated(auxv);
      assert auxv[..n] == [auxv[0]] + rest[..n - 1];
      KeptConcat([auxv[0]], rest[..n - 1], info, phdr, sp);
      KeptKeys(rest, info, phdr, sp);
      KeysConcat(KeptEntry(auxv[0], info, phdr, sp), Kept(rest[..n - 1], info, phdr, sp));
    }
  }

  lemma RestTerminated(auxv: seq<Aux>)
    requires Terminated(auxv) && auxv[0].key != 0
    ensures Terminated(auxv[1..]) && AuxCount(auxv) == 1 + AuxCount(auxv[1..])
  {
    var i :| 0 <= i < |auxv| && auxv[i].key == AT_NULL;
    assert auxv[1..][i - 1].key == AT_NULL;
  }

  lemma OneKept(a: Aux, info: Info, phdr: nat, sp: nat)
    ensures Kept([a], info, phdr, sp) == KeptEntry(a, info, phdr, sp)
    ensures Keys(Pairs(KeptEntry(a, info, phdr, sp))) == if a.key in {3, 4, 5, 6, 9, 23, 25} then [a.key] else []
  {
    assert [a][..0] == [];
  }

  lemma KeysConcat(a: seq<Aux>, b: seq<Aux>)
    ensures Keys(Pairs(a + b)) == Keys(Pairs(a)) + Keys(Pairs(b))
  {
  }

  lemma {:induction false} KeptTells(auxv: seq<Aux>, m: seq<Byte>, base: nat, sp: nat, p: Start, i: nat)
    requires |p.header| <= |m| && m[|m| - |p.header|..] == p.header
    requires i < |Kept(auxv, p.info, base + |m| - |p.header|, base + sp)|
    ensures var a := Kept(auxv, p.info, base + |m| - |p.header|, base + sp)[i]; Tells(a.key, a.value, m, base, sp, p)
  {
    var phdr, n := base + |m| - |p.header|, |auxv| - 1;
    if i < |Kept(auxv[..n], p.info, phdr, base + sp)| {
      KeptTells(auxv[..n], m, base, sp, p, i);
    } else {
      assert phdr - base + |p.header| == |m|;
      assert m[phdr - base..|m|] == p.header;
    }
  }

  lemma HeaderAtTop(m: seq<Byte>, base: nat, sp: nat, p: Start)
    requires p.Ok() && Laid(m, base, sp, p)
    ensures |p.header| <= |m| && m[|m| - |p.header|..] == p.header
  {
    hide StackWords, Packed, WordBytes;
  }

  /** The auxiliary vector as the guest reads it: which keys, in which order, and
      beside each what it is to tell; the program headers are in memory where key
      3 says. */
  lemma GuestReadsAux(m: seq<Byte>, base: nat, sp: nat, p: Start)
    requires p.Ok() && Laid(m, base, sp, p) && Addressable(p, |m|, base)
    ensures var aux := Walk(m, base, sp).aux;
            && Keys(aux) == GuestKeys(p.auxv)
            && forall i :: 0 <= i < |aux| ==> Tells(aux[i].0, aux[i].1, m, base, sp, p)
  {
    hide Walk, Laid, Kept, GuestKeys, Tells, Keys;
    GuestReadsBack(m, base, sp, p);
    HeaderAtTop(m, base, sp, p);
    KeptKeys(p.auxv, p.info, base + |m| - |p.header|, base + sp);
    forall i | 0 <= i < |KeptOf(p, |m|, base, sp)|
      ensures var a := Pairs(KeptOf(p, |m|, base, sp))[i]; Tells(a.0, a.1, m, base, sp, p)
    {
      KeptTells(p.auxv[..AuxCount(p.auxv)], m, base, sp, p, i);
    }
  }

  lemma ShowsWalk(m: seq<Byte>, base: nat, sp: nat, p: Start, args: seq<int>, envs: seq<int>)
    requires p.Ok() && |p.header| <= |m| && Shows(m, sp, StackWords(p, |m|, base, sp))
    requires |args| == |p.argv| && args + envs == Addresses(p, |m|, base)
    requires forall i :: 0 <= i < |args + envs| ==> (args + envs)[i] > 0
    ensures Walk(m, base, sp) == Seen(|p.argv|, ReadStrings(m, base, args), ReadStrings(m, base, envs),
                                      Pairs(KeptOf(p, |m|, base, sp)))
  {
    hide Shows, Words, Walk, ReadStrings, Pairs, KeptOf, Addresses;
    assert args == (args + envs)[..|args|] && envs == (args + envs)[|args|..];
    assert forall i :: 0 <= i < |args| ==> args[i] == (args + envs)[i];
    assert forall i :: 0 <= i < |envs| ==> envs[i] == (args + envs)[|args| + i];
    WalkIs(m, base, sp, args, envs, KeptOf(p, |m|, base, sp));
  }

  lemma LaidSize(m: seq<Byte>, base: nat, sp: nat, p: Start)
    requires p.Ok() && Laid(m, base, sp, p)
    ensures |p.header| <= |m| && sp + 8 * |p.argv| + |p.Upper()| <= |m|
  {
    hide Image, StackWords;
  }

  /** Addresses are nonzero and every word fits in 64 bits. */
  lemma LaidFits(m: seq<Byte>, base: nat, sp: nat, p: Start)
    requires p.Ok() && |p.header| <= |m| && Addressable(p, |m|, base)
    requires sp + 8 * |p.argv| + |p.Upper()| <= |m|
    ensures forall i :: 0 <= i < |Addresses(p, |m|, base)| ==> Addresses(p, |m|, base)[i] > 0
    ensures Fits64(StackWords(p, |m|, base, sp))
  {
    hide Words, Kept, Flatten, Packed, Pointers;
    var a := Addresses(p, |m|, base);
    PointersInside(p.Strings(), base, |m| - |p.header|);
    SplitFits(a, |p.argv|);
    KeptFits(p.auxv[..AuxCount(p.auxv)], p.info, base + |m| - |p.header|, base + sp);
    FlattenFits(KeptOf(p, |m|, base, sp));
    WordsFit(a[..|p.argv|], a[|p.argv|..], KeptOf(p, |m|, base, sp));
  }

  lemma SplitFits(ptrs: seq<int>, k: nat)
    requires k <= |ptrs| && Fits64(ptrs)
    ensures Fits64(ptrs[..k]) && Fits64(ptrs[k..])
  {
  }

  /** A finished stack shows its words from sp up, and its strings are where the
      pointers say. */
  lemma LaidShows(m: seq<Byte>, base: nat, sp: nat, p: Start)
    requires p.Ok() && Laid(m, base, sp, p) && Fits64(StackWords(p, |m|, base, sp))
    ensures Shows(m, sp, StackWords(p, |m|, base, sp))
    ensures ReadStrings(m, base, Addresses(p, |m|, base)) == p.Strings()
  {
    hide Image, Shows, ReadStrings, Packed, Pointers, StackWords, Fits64;
    var ws := StackWords(p, |m|, base, sp);
    var gap := |m| - |p.Upper()| - sp - 8 * |ws|;
    ImageShows(sp, ws, gap, p.Upper());
    LaidStrings(sp, ws, gap, p.Strings(), p.header, base);
  }

  lemma LaidStrings(sp: nat, ws: seq<int>, gap: nat, ss: seq<CString>, header: seq<Byte>, base: nat)
    requires forall i :: 0 <= i < |ws| ==> ws[i] >= 0
    ensures var m := Image(sp, ws, gap, Packed(ss) + header);
            ReadStrings(m, base, Pointers(ss, base, |m| - |header|)) == ss
  {
    var front := Zeros(sp) + WordBytes(ws) + Zeros(gap);
    assert Image(sp, ws, gap, Packed(ss) + header) == front + Packed(ss) + header;
    StringsReadBack(front, ss, header, base);
  }
}
