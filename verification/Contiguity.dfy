/**
 Which lexed programs survive a save and a load: the standalone labels decide.
 */
module Contiguity {
  import opened Words
  import opened Source
  import opened Layout
  import opened Addresses
  import opened Simulation
  import opened Assembler
  import opened Program

  /** How many entries of a listing are instructions. */
  function Instrs(text: seq<TextInfo>): nat {
    if text == [] then 0 else Instrs(text[..|text| - 1]) + if text[|text| - 1].op.OpNull? then 0 else 1
  }

  lemma InstrsSnoc(text: seq<TextInfo>, l: TextInfo)
    ensures Instrs(text + [l]) == Instrs(text) + if l.op.OpNull? then 0 else 1
  {}

  lemma {:induction false} InstrsAppend(text: seq<TextInfo>, more: seq<TextInfo>)
    requires forall j :: 0 <= j < |more| ==> !more[j].op.OpNull?
    ensures Instrs(text + more) == Instrs(text) + |more|
  {
    if more == [] {
      assert text + more == text;
    } else {
      var init, l := more[..|more| - 1], more[|more| - 1];
      assert text + more == (text + init) + [l];
      InstrsSnoc(text + init, l);
      InstrsAppend(text, init);
    }
  }

  /** Every entry of the listing stands four bytes past the base for each instruction before it. */
  predicate Counted(text: seq<TextInfo>) {
    forall i :: 0 <= i < |text| ==> text[i].addr == Bump(TEXT_START_ADDR, 4 * Instrs(text[..i]))
  }

  lemma CountedAppend(text: seq<TextInfo>, more: seq<TextInfo>)
    requires Counted(text)
    requires forall j :: 0 <= j < |more| ==> more[j].addr == Bump(TEXT_START_ADDR, 4 * (Instrs(text) + j))
    requires forall j :: 0 <= j < |more| - 1 ==> !more[j].op.OpNull?
    ensures Counted(text + more)
  {
    hide Bump, Instrs, Counted;
    var all := text + more;
    forall i | 0 <= i < |all|
      ensures all[i].addr == Bump(TEXT_START_ADDR, 4 * Instrs(all[..i]))
    {
      if i < |text| {
        CountedHead(text, more, i);
      } else {
        CountedTail(text, more, i - |text|);
      }
    }
    CountedAll(all);
  }

  lemma CountedAll(text: seq<TextInfo>)
    requires forall i :: 0 <= i < |text| ==> text[i].addr == Bump(TEXT_START_ADDR, 4 * Instrs(text[..i]))
    ensures Counted(text)
  {
    hide Instrs, Bump;
  }

  lemma CountedHead(text: seq<TextInfo>, more: seq<TextInfo>, i: nat)
    requires Counted(text) && i < |text|
    ensures (text + more)[i].addr == Bump(TEXT_START_ADDR, 4 * Instrs((text + more)[..i]))
  {
    hide Instrs, Bump;
    assert (text + more)[..i] == text[..i];
  }

  lemma CountedTail(text: seq<TextInfo>, more: seq<TextInfo>, j: nat)
    requires j < |more| && more[j].addr == Bump(TEXT_START_ADDR, 4 * (Instrs(text) + j))
    requires forall k :: 0 <= k < |more| - 1 ==> !more[k].op.OpNull?
    ensures (text + more)[|text| + j].addr == Bump(TEXT_START_ADDR, 4 * Instrs((text + more)[..|text| + j]))
  {
    hide Instrs, Bump;
    assert (text + more)[..|text| + j] == text + more[..j];
    InstrsAppend(text, more[..j]);
  }

  /** The invariant of placing lines. */
  lemma {:induction false} TextCounted(lines: seq<SourceLine>, k: nat)
    requires Regular(lines) && k <= |lines|
    ensures Counted(Prefix(lines, k).text) &&
      Prefix(lines, k).textAddr == Bump(TEXT_START_ADDR, 4 * Instrs(Prefix(lines, k).text))
    decreases k
  {
    if k > 0 {
      hide Prefix, Place, RegularBody, Bump, Counted, Instrs;
      TextCounted(lines, k - 1);
      PrefixStep(lines, k - 1);
      assert RegularBody(lines[k - 1].body);
      PlacedCounted(Prefix(lines, k - 1), lines[k - 1]);
    }
  }

  lemma PlacedCounted(g: Listing, line: SourceLine)
    requires RegularBody(line.body) && Counted(g.text) && g.textAddr == Bump(TEXT_START_ADDR, 4 * Instrs(g.text))
    ensures var h := Place(g, line); Counted(h.text) && h.textAddr == Bump(TEXT_START_ADDR, 4 * Instrs(h.text))
  {
    hide Place, Emit, EmitCount, Bump, Counted, Instrs, IsPseudo;
    PlaceText(g, line);
    match line.body {
      case InstrBody(t) => InstrCounted(g.text, t, g.textAddr);
      case BareBody(t) => BareCounted(g.text, t.(addr := g.textAddr), g.textAddr);
      case _ => assert g.text + [] == g.text;
    }
  }

  lemma InstrCounted(text: seq<TextInfo>, t: TextInfo, a: int)
    requires RegularBody(InstrBody(t)) && Counted(text) && a == Bump(TEXT_START_ADDR, 4 * Instrs(text))
    ensures Counted(text + Emit(t, a)) &&
      Bump(a, 4 * EmitCount(InstrBody(t))) == Bump(TEXT_START_ADDR, 4 * Instrs(text + Emit(t, a)))
  {
    hide Emit, EmitCount, Bump, Counted, Instrs, IsPseudo;
    var es, n := Emit(t, a), Instrs(text);
    EmitOps(t, a);
    EmitLength(t, a);
    forall j | 0 <= j < |es|
      ensures es[j].addr == Bump(TEXT_START_ADDR, 4 * (n + j))
    {
      EmitAddrs(t, a, j);
      BumpBump(TEXT_START_ADDR, 4 * n, 4 * j);
    }
    CountedAppend(text, es);
    InstrsAppend(text, es);
    BumpBump(TEXT_START_ADDR, 4 * n, 4 * |es|);
  }

  lemma BareCounted(text: seq<TextInfo>, l: TextInfo, a: int)
    requires l.op.OpNull? && l.addr == a && Counted(text) && a == Bump(TEXT_START_ADDR, 4 * Instrs(text))
    ensures Counted(text + [l]) && Instrs(text + [l]) == Instrs(text)
  {
    hide Bump, Counted, Instrs;
    CountedAppend(text, [l]);
    InstrsSnoc(text, l);
  }

  // ---- Contiguous addresses ----

  /** No entry without an instruction is followed by another entry. */
  predicate NullsLast(text: seq<TextInfo>) { forall i :: 0 <= i < |text| - 1 ==> !text[i].op.OpNull? }

  lemma {:induction false} InstrsFull(text: seq<TextInfo>, i: nat)
    requires i <= |text|
    ensures Instrs(text[..i]) <= i
    ensures Instrs(text[..i]) == i <==> forall j :: 0 <= j < i ==> !text[j].op.OpNull?
    decreases i
  {
    if i > 0 {
      InstrsFull(text, i - 1);
      assert text[..i] == text[..i - 1] + [text[i - 1]];
      InstrsSnoc(text[..i - 1], text[i - 1]);
    }
  }

  lemma SameBump(a: int, m: nat, n: nat)
    requires 4 * m < MODULUS && 4 * n < MODULUS
    ensures Bump(a, 4 * m) == Bump(a, 4 * n) <==> m == n
  {}

  /** Counted addresses are contiguous exactly when only the last entry may lack an instruction. */
  lemma ContiguousText(text: seq<TextInfo>)
    requires Counted(text) && 4 * |text| < MODULUS
    ensures Contiguous(AssembledAll(text)) <==> NullsLast(text)
  {
    hide Bump, Instrs, Assembled;
    var p := AssembledAll(text);
    forall i | 0 <= i < |text|
      ensures p[i].adr == text[i].addr && (p[i].adr == Bump(p[0].adr, 4 * i) <==> Instrs(text[..i]) == i)
    {
      AddressKept(text[i]);
      AddressKept(text[0]);
      FirstAddr(text);
      InstrsFull(text, i);
      SameBump(TEXT_START_ADDR, Instrs(text[..i]), i);
    }
    if NullsLast(text) {
      forall i | 0 <= i < |text|
        ensures p[i].adr == Bump(p[0].adr, 4 * i)
      {
        InstrsFull(text, i);
      }
    } else {
      InstrsFull(text, |text| - 1);
      assert p[|text| - 1].adr != Bump(p[0].adr, 4 * (|text| - 1));
    }
  }

  lemma AddressKept(l: TextInfo)
    ensures Assembled(l).adr == l.addr
  {}

  lemma FirstAddr(text: seq<TextInfo>)
    requires Counted(text) && text != []
    ensures text[0].addr == TEXT_START_ADDR
  {}

  // ---- Standalone labels ----

  predicate EmitsText(body: Body) { body.InstrBody? || body.BareBody? }

  /** No standalone label is followed by another line of text. */
  predicate BareLast(lines: seq<SourceLine>) {
    forall j, k :: 0 <= j < k < |lines| && lines[j].body.BareBody? ==> !EmitsText(lines[k].body)
  }

  predicate NoBare(lines: seq<SourceLine>) { forall j :: 0 <= j < |lines| ==> !lines[j].body.BareBody? }

  predicate NoNulls(text: seq<TextInfo>) { forall i :: 0 <= i < |text| ==> !text[i].op.OpNull? }

  // What one line adds to the text: instructions, one entry without any, or nothing.
  lemma PlacedText(lines: seq<SourceLine>, k: nat)
    requires Regular(lines) && k < |lines|
    ensures var t, u, body := Prefix(lines, k).text, Prefix(lines, k + 1).text, lines[k].body;
      t <= u && (!EmitsText(body) ==> u == t) &&
      (body.InstrBody? ==> |u| > |t| && forall i :: |t| <= i < |u| ==> !u[i].op.OpNull?) &&
      (body.BareBody? ==> |u| == |t| + 1 && u[|t|].op.OpNull?)
  {
    hide Place, Emit, Bump, Prefix, EmitCount;
    PrefixStep(lines, k);
    PlaceText(Prefix(lines, k), lines[k]);
    assert RegularBody(lines[k].body);
    if lines[k].body.InstrBody? {
      EmitOps(lines[k].body.ti, Prefix(lines, k).textAddr);
    }
  }

  lemma {:induction false} NullsAreBare(lines: seq<SourceLine>, k: nat)
    requires Regular(lines) && k <= |lines|
    ensures NoNulls(Prefix(lines, k).text) <==> NoBare(lines[..k])
    decreases k
  {
    if k > 0 {
      hide Place, Prefix, Regular;
      NullsAreBare(lines, k - 1);
      PlacedText(lines, k - 1);
      var t, u := Prefix(lines, k - 1).text, Prefix(lines, k).text;
      assert forall i :: 0 <= i < |t| ==> u[i] == t[i];
      assert lines[..k] == lines[..k - 1] + [lines[k - 1]];
      if NoNulls(u) {
        assert NoNulls(t);
      }
    } else {
      assert lines[..0] == [];
    }
  }

  lemma BareLastStep(lines: seq<SourceLine>, l: SourceLine)
    ensures BareLast(lines + [l]) <==> BareLast(lines) && (EmitsText(l.body) ==> NoBare(lines))
    ensures NoBare(lines) ==> BareLast(lines)
  {
    var all := lines + [l];
    if BareLast(all) {
      forall j, k | 0 <= j < k < |lines| && lines[j].body.BareBody?
        ensures !EmitsText(lines[k].body)
      {
        assert all[j] == lines[j] && all[k] == lines[k];
      }
      if EmitsText(l.body) {
        forall j | 0 <= j < |lines|
          ensures !lines[j].body.BareBody?
        {
          assert all[j] == lines[j] && all[|lines|] == l;
        }
      }
    }
  }

  lemma NullsLastStep(t: seq<TextInfo>, u: seq<TextInfo>)
    requires t <= u && |u| > |t|
    requires forall i :: |t| <= i < |u| - 1 ==> !u[i].op.OpNull?
    ensures NullsLast(u) <==> NoNulls(t)
  {}

  /** The entries and the lines say the same. */
  lemma {:induction false} NullsLastIsBareLast(lines: seq<SourceLine>, k: nat)
    requires Regular(lines) && k <= |lines|
    ensures NullsLast(Prefix(lines, k).text) <==> BareLast(lines[..k])
    decreases k
  {
    if k > 0 {
      hide *;
      NullsLastIsBareLast(lines, k - 1);
      NullsLastPlaced(lines, k - 1);
      BareLastAt(lines, k - 1);
    } else {
      assert lines[..0] == [];
    }
  }

  lemma BareLastAt(lines: seq<SourceLine>, k: nat)
    requires k < |lines|
    ensures BareLast(lines[..k + 1]) <==> BareLast(lines[..k]) && (EmitsText(lines[k].body) ==> NoBare(lines[..k]))
    ensures NoBare(lines[..k]) ==> BareLast(lines[..k])
  {
    hide *;
    assert lines[..k + 1] == lines[..k] + [lines[k]];
    BareLastStep(lines[..k], lines[k]);
  }

  lemma NullsLastPlaced(lines: seq<SourceLine>, k: nat)
    requires Regular(lines) && k < |lines|
    ensures var t, u := Prefix(lines, k).text, Prefix(lines, k + 1).text;
      NullsLast(u) <==> if EmitsText(lines[k].body) then NoBare(lines[..k]) else NullsLast(t)
  {
    hide Prefix, Regular, NullsLast, NoBare, NoNulls;
    PlacedText(lines, k);
    NullsAreBare(lines, k);
    if EmitsText(lines[k].body) {
      NullsLastStep(Prefix(lines, k).text, Prefix(lines, k + 1).text);
    }
  }

  lemma ResolvedCounted(lines: seq<SourceLine>)
    requires Regular(lines)
    ensures Counted(Text(lines)) && |Text(lines)| == |Image(lines).text|
    ensures NullsLast(Text(lines)) <==> NullsLast(Image(lines).text)
  {
    hide Resolve, Bump, PlaceAll, Instrs;
    var raw, text := Image(lines).text, Text(lines);
    assert lines[..|lines|] == lines;
    TextCounted(lines, |lines|);
    forall i | 0 <= i < |raw|
      ensures text[i].addr == raw[i].addr && text[i].op == raw[i].op
    {
      ResolveKeeps(raw[i], Image(lines).syms);
    }
    forall i | 0 <= i <= |raw|
      ensures Instrs(text[..i]) == Instrs(raw[..i])
    {
      SameInstrs(text, raw, i);
    }
  }

  lemma {:induction false} SameInstrs(t: seq<TextInfo>, u: seq<TextInfo>, i: nat)
    requires |t| == |u| && i <= |t| && forall j :: 0 <= j < |t| ==> t[j].op == u[j].op
    ensures Instrs(t[..i]) == Instrs(u[..i])
    decreases i
  {
    if i > 0 {
      SameInstrs(t, u, i - 1);
      assert t[..i] == t[..i - 1] + [t[i - 1]];
      assert u[..i] == u[..i - 1] + [u[i - 1]];
      InstrsSnoc(t[..i - 1], t[i - 1]);
      InstrsSnoc(u[..i - 1], u[i - 1]);
    }
  }

  /**
   A lexed and assembled program survives a save and a load exactly when no standalone label is followed by more
   text.
   */
  lemma SaveLoadLexed(lines: seq<SourceLine>, count: bv32, first: bv32)
    requires Regular(lines) && Text(lines) != [] && 4 * |Text(lines)| < MODULUS
    ensures var p := AssembledAll(Text(lines));
      CompleteFile(FileOf(p)) && (LoadFile(FileOf(p), count, first) == p <==> BareLast(lines))
  {
    hide Text, Image, Counted, NullsLast, BareLast, Regular, Assembled, LoadFile, CompleteFile, FileOf, Contiguous;
    var text := Text(lines);
    var p := AssembledAll(text);
    ResolvedCounted(lines);
    ContiguousText(text);
    assert lines[..|lines|] == lines;
    NullsLastIsBareLast(lines, |lines|);
    WholePrefix(lines);
    AddressKept(text[0]);
    FirstAddr(text);
    SaveLoad(p, count, first);
  }

  lemma WholePrefix(lines: seq<SourceLine>)
    ensures Prefix(lines, |lines|) == Image(lines)
  {
    assert lines[..|lines|] == lines;
  }
}
