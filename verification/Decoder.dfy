/**
  The generated decoder: one test after the other, the first that matches wins.
*/
module Decoder {
  import opened Bits
  import opened Layout
  import opened Codec
  import opened Packing

  /** One opcode of the table, with its layout. */
  datatype Entry = Entry(op: int, kind: Kind, layout: Layout) {
    predicate Ok() { Compiled(kind, layout).Some? }
    function Decode(): Decode
      requires Ok()
    {
      Compiled(kind, layout).value
    }
  }

  predicate AllOk(entries: seq<Entry>) {
    forall k :: 0 <= k < |entries| ==> entries[k].Ok()
  }

  predicate Takes(e: Entry, w: Word)
    requires e.Ok()
  {
    Matches(w, e.Decode().mask, e.Decode().code)
  }

  /** The entry whose test is the first to succeed, or their number. */
  function Chosen(entries: seq<Entry>, w: Word): (k: nat)
    requires AllOk(entries)
    ensures k <= |entries|
  {
    if entries == [] || Takes(entries[0], w) then 0 else 1 + Chosen(entries[1..], w)
  }

  lemma {:induction false} ChosenIsFirst(entries: seq<Entry>, w: Word)
    requires AllOk(entries)
    ensures var k := Chosen(entries, w);
            (k < |entries| ==> Takes(entries[k], w)) && forall j :: 0 <= j < k ==> !Takes(entries[j], w)
  {
    hide Takes, Entry.Ok;
    if entries != [] && !Takes(entries[0], w) {
      var rest := entries[1..];
      assert forall j :: 0 <= j < |rest| ==> rest[j] == entries[j + 1];
      ChosenIsFirst(rest, w);
      forall j | 0 <= j < Chosen(entries, w) ensures !Takes(entries[j], w) {
        if j > 0 { assert entries[j] == rest[j - 1]; }
      }
    }
  }

  /** What the decoder returns; `unknown` is the opcode of an unknown instruction. */
  function Decoded(entries: seq<Entry>, unknown: int, w: Word): Insn
    requires AllOk(entries)
  {
    var k := Chosen(entries, w);
    if k < |entries| then Build(entries[k].op, entries[k].Decode(), w) else Blank(unknown)
  }

  /** Some bit is tested by both, for different values. */
  predicate Apart(d: Decode, e: Decode) {
    exists b :: 0 <= b < |d.mask| && b < |e.mask| && b < |d.code| && b < |e.code|
                && d.mask[b] && e.mask[b] && d.code[b] != e.code[b]
  }

  /** A code has bits only where its mask has. */
  predicate Clean(d: Decode) {
    |d.code| == |d.mask| <= 32 && forall b :: 0 <= b < |d.code| && d.code[b] ==> d.mask[b]
  }

  lemma {:induction false} CodeInMask(l: Layout, b: nat)
    requires b < Width(l) && Code(l)[b]
    ensures Mask(l)[b]
  {
    var n := PieceWidth(l[0]);
    if b >= n {
      BehindPiece(l, b - n);
      CodeInMask(l[1..], b - n);
    }
  }

  lemma CompiledIsClean(e: Entry)
    requires e.Ok()
    ensures Clean(e.Decode())
  {
    forall b | 0 <= b < Width(e.layout) && Code(e.layout)[b] ensures Mask(e.layout)[b] {
      CodeInMask(e.layout, b);
    }
  }

  lemma MatchesBits(w: Word, d: Decode)
    requires Clean(d)
    ensures Matches(w, d.mask, d.code) <==> forall b :: 0 <= b < |d.mask| && d.mask[b] ==> w[b] == d.code[b]
  {
    if Matches(w, d.mask, d.code) {
      forall b | 0 <= b < |d.mask| && d.mask[b] ensures w[b] == d.code[b] {
        assert And(w, ZeroExtend(d.mask))[b] == ZeroExtend(d.code)[b];
      }
    }
  }

  /** Some word is taken by both of two entries exactly if they are not apart. */
  lemma BothTakeIff(e: Entry, f: Entry)
    requires e.Ok() && f.Ok()
    ensures (exists w: Word :: Takes(e, w) && Takes(f, w)) <==> !Apart(e.Decode(), f.Decode())
  {
    hide Matches, Compiled;
    CompiledIsClean(e);
    CompiledIsClean(f);
    var c, d := e.Decode().code, f.Decode().code;
    if Apart(e.Decode(), f.Decode()) {
      forall w: Word | Takes(e, w) ensures !Takes(f, w) {
        MatchesBits(w, e.Decode());
        MatchesBits(w, f.Decode());
      }
    } else {
      var w: Word := seq(32, b => (0 <= b < |c| && c[b]) || (0 <= b < |d| && d[b]));
      MatchesBits(w, e.Decode());
      MatchesBits(w, f.Decode());
      assert Takes(e, w) && Takes(f, w);
    }
  }

  /** The chain picks entry k for every word that entry takes if and only if k is
      apart from each entry before it. */
  lemma ChainPicksIff(entries: seq<Entry>, k: nat)
    requires AllOk(entries) && k < |entries|
    ensures (forall w: Word :: Takes(entries[k], w) ==> Chosen(entries, w) == k) <==>
              forall j :: 0 <= j < k ==> Apart(entries[j].Decode(), entries[k].Decode())
  {
    hide Apart, Compiled, Takes, Chosen;
    if forall j :: 0 <= j < k ==> Apart(entries[j].Decode(), entries[k].Decode()) {
      forall w: Word | Takes(entries[k], w) ensures Chosen(entries, w) == k {
        ChosenIsFirst(entries, w);
        forall j | 0 <= j < k ensures !Takes(entries[j], w) {
          BothTakeIff(entries[j], entries[k]);
        }
      }
    } else {
      var j :| 0 <= j < k && !Apart(entries[j].Decode(), entries[k].Decode());
      BothTakeIff(entries[j], entries[k]);
      var w: Word :| Takes(entries[j], w) && Takes(entries[k], w);
      ChosenIsFirst(entries, w);
      assert Chosen(entries, w) <= j;
    }
  }

  /** Through the whole chain: an instruction encoded by entry k, which is apart
      from those before it, is decoded as entry k and gives back its operands. */
  lemma ChainRoundTrip(entries: seq<Entry>, unknown: int, k: nat, o: Operands, w: Word)
    requires AllOk(entries) && k < |entries|
    requires forall j :: 0 <= j < k ==> Apart(entries[j].Decode(), entries[k].Decode())
    requires var l := entries[k].layout;
             && Placed(l, 0) && TargetsApart(l) && FromTable(l)
             && o.Ok() && RegsFit(l, o) && w[..Width(l)] == Encode(l, o)
    ensures var i := Decoded(entries, unknown, w);
            && i.op == entries[k].op
            && Recovers(i, entries[k].Decode(), entries[k].kind, entries[k].layout, o)
  {
    hide Apart, Placed, TargetsApart, FromTable, RegsFit, Encode, Matches, Recovers, Compiled, Chosen;
    DecoderRoundTrip(entries[k].op, entries[k].kind, entries[k].layout, o, w);
    ChainPicksIff(entries, k);
    assert Takes(entries[k], w);
    BuildKeepsOp(entries[k], w);
  }

  /** A word no entry takes becomes the unknown instruction, with no registers. */
  lemma UnknownIsBlank(entries: seq<Entry>, unknown: int, w: Word)
    requires AllOk(entries) && forall k :: 0 <= k < |entries| ==> !Takes(entries[k], w)
    ensures var i := Decoded(entries, unknown, w);
            i.op == unknown && i.Rd() == -1 && i.Rs1() == -1 && i.Rs2() == -1 && i.Rs3() == -1
  {
    hide Takes;
    ChosenIsFirst(entries, w);
    BlankReads(unknown, Zeros(32));
  }

  lemma BuildKeepsOp(e: Entry, w: Word)
    requires e.Ok()
    ensures |e.Decode().regs| == 4 && Build(e.op, e.Decode(), w).op == e.op
  {
    hide EvalReg, EvalImm;
  }
}
