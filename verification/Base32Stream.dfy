/**
 `base32_decode_ctx` (src/encoding/base32.c), on a whole text and on pieces of one. Feeding a text
 in any pieces, with newlines anywhere, comes to the same as decoding it at once without them.
 */
module Base32Stream {
  import opened Bytes
  import opened Wrappers
  import opened Base32
  import opened Base32Codec

  function NoNewline(c: byte): seq<byte> {
    if c == NEWLINE then [] else [c]
  }

  /** A text without its newlines. */
  function Text(s: seq<byte>): seq<byte> {
    if s == [] then [] else NoNewline(s[0]) + Text(s[1..])
  }

  lemma {:induction false} TextConcat(a: seq<byte>, b: seq<byte>)
    ensures Text(a + b) == Text(a) + Text(b)
  {
    hide NoNewline;
    if a == [] {
      assert a + b == b && [] + Text(b) == Text(b);
    } else {
      TextConcat(a[1..], b);
      assert (a + b)[1..] == a[1..] + b && (a + b)[0] == a[0];
      Associative(NoNewline(a[0]), Text(a[1..]), Text(b));
    }
  }

  lemma {:induction false} TextPlain(s: seq<byte>)
    requires NEWLINE !in s
    ensures Text(s) == s
  {
    if s != [] {
      TextPlain(s[1..]);
      assert s == [s[0]] + s[1..];
    }
  }

  lemma GroupPlain(t: seq<byte>)
    requires |t| == 8 && DecodeGroup(t).Some?
    ensures NEWLINE !in t
  {
    var k := DigitsFor(GroupBytes(t));
    assert Shape(t, k);
    assert forall j | 0 <= j < 8 :: t[j] == PAD || IsDigit(t[j]);
  }

  /** The bytes of the whole groups and the characters left over, or the bytes before a group that is none. */
  datatype Outcome = Bad(bytes: seq<byte>) | Good(bytes: seq<byte>, left: seq<byte>)

  function Run(t: seq<byte>): (r: Outcome)
    ensures r.Good? ==> |r.left| < 8
  {
    if |t| < 8 then Good([], t)
    else
      match DecodeGroup(t[..8])
      case None => Bad([])
      case Some(b) => After(b, Run(t[8..]))
  }

  function After(bytes: seq<byte>, r: Outcome): Outcome {
    match r
    case Bad(more) => Bad(bytes + more)
    case Good(more, left) => Good(bytes + more, left)
  }

  lemma AfterAfter(a: seq<byte>, b: seq<byte>, r: Outcome)
    ensures After(a, After(b, r)) == After(a + b, r) && After([], r) == r
  {
    assert a + (b + r.bytes) == (a + b) + r.bytes && [] + r.bytes == r.bytes;
  }

  function Whole(r: Outcome): Option<seq<byte>> {
    match r
    case Good(bytes, left) => if left == [] then Some(bytes) else None
    case Bad(_) => None
  }

  /** Decoding a whole text is a run with nothing left over. */
  lemma {:induction false} DecodeIsRun(t: seq<byte>)
    ensures Decode(t) == Whole(Run(t))
    decreases |t|
  {
    if |t| >= 8 {
      DecodeIsRun(t[8..]);
    }
  }

  lemma RunBlock(block: seq<byte>, tail: seq<byte>)
    requires |block| == 8
    ensures Run(block + tail) == match DecodeGroup(block) { case Some(b) => After(b, Run(tail)) case None => Bad([]) }
  {
    assert (block + tail)[..8] == block && (block + tail)[8..] == tail;
  }

  /** A run can stop at any point and go on with what was left over. */
  lemma {:induction false} RunConcat(a: seq<byte>, b: seq<byte>)
    ensures Run(a + b) == match Run(a) { case Good(bytes, left) => After(bytes, Run(left + b)) case Bad(g) => Bad(g) }
    decreases |a|
  {
    if |a| < 8 {
      AfterAfter([], [], Run(a + b));
    } else {
      assert a == a[..8] + a[8..] && a + b == a[..8] + (a[8..] + b);
      RunBlock(a[..8], a[8..] + b);
      RunConcat(a[8..], b);
      if DecodeGroup(a[..8]).Some? && Run(a[8..]).Good? {
        AfterAfter(DecodeGroup(a[..8]).value, Run(a[8..]).bytes, Run(Run(a[8..]).left + b));
      }
    }
  }

  /** Decoding `s`, with or without its newlines, starts with `bytes` and goes on with `rest`. */
  ghost predicate Ran(s: seq<byte>, bytes: seq<byte>, rest: seq<byte>) {
    Run(s) == After(bytes, Run(rest)) && Run(Text(s)) == After(bytes, Run(Text(rest)))
  }

  lemma RanNothing(s: seq<byte>)
    ensures Ran(s, [], s)
  {
    AfterAfter([], [], Run(s));
    AfterAfter([], [], Run(Text(s)));
  }

  /** A good group at the front has no newline in it. */
  lemma RanGroup(s: seq<byte>)
    requires |s| >= 8 && DecodeGroup(s[..8]).Some?
    ensures Ran(s, DecodeGroup(s[..8]).value, s[8..])
  {
    GroupPlain(s[..8]);
    TextPlain(s[..8]);
    TextConcat(s[..8], s[8..]);
    assert s == s[..8] + s[8..];
    RunBlock(s[..8], Text(s[8..]));
  }

  lemma RanOn(s: seq<byte>, a: seq<byte>, t: seq<byte>, b: seq<byte>, u: seq<byte>)
    requires Ran(s, a, t) && Ran(t, b, u)
    ensures Ran(s, a + b, u)
  {
    AfterAfter(a, b, Run(u));
    AfterAfter(a, b, Run(Text(u)));
  }

  /** The inner loop: groups straight from the input, as long as they are good. */
  method DecodeRun(input: seq<byte>, pos: nat, out: array<byte>, o: nat, ghost before: seq<byte>)
    returns (pos': nat, o': nat, ghost bytes: seq<byte>)
    requires pos <= |input| && Holds(out, o, before)
    modifies out
    ensures pos <= pos' <= |input| && Ran(input[pos..], bytes, input[pos'..])
    ensures Holds(out, o', before + bytes) && o' <= out.Length
    ensures |input| - pos' < 8 || DecodeGroup(input[pos'..][..8]).None?
  {
    hide Ran, Holds, DecodeGroup;
    pos', o', bytes := pos, o, [];
    assert before + [] == before;
    RanNothing(input[pos..]);
    while true
      invariant pos <= pos' <= |input| && Holds(out, o', before + bytes) && Ran(input[pos..], bytes, input[pos'..])
      decreases |input| - pos'
    {
      var saved := o';
      var ok;
      ok, o' := Decode8(input[pos'..], out, o', before + bytes);
      if !ok {
        return pos', saved, bytes;
      }
      ghost var b := DecodeGroup(input[pos'..][..8]).value;
      RanGroup(input[pos'..]);
      assert input[pos'..][8..] == input[pos' + 8..];
      RanOn(input[pos..], bytes, input[pos'..], b, input[pos' + 8..]);
      assert before + bytes + b == before + (bytes + b);
      bytes, pos' := bytes + b, pos' + 8;
    }
  }

  /** Without a context the input is decoded as a unit, and newlines are garbage. */
  method DecodeWhole(input: seq<byte>, out: array<byte>) returns (ok: bool, outlen: nat)
    modifies out
    ensures ok <==> Decode(input).Some?
    ensures ok ==> Holds(out, outlen, Decode(input).value)
    ensures outlen <= out.Length && Holds(out, Min(|Run(input).bytes|, out.Length), Run(input).bytes)
  {
    DecodeIsRun(input);
    assert input[0..] == input;
    var pos;
    ghost var bytes;
    pos, outlen, bytes := DecodeRun(input, 0, out, 0, []);
    assert [] + bytes == bytes == bytes + [];
    if pos == |input| {
      return true, outlen;
    }
    // The group that failed is tried once more, and fails again.
    ok, outlen := Decode8(input[pos..], out, outlen, bytes);
  }

  // ----- Pieces

  class DecodeContext {
    var i: nat
    const buf: array<byte>

    ghost predicate Valid()
      reads this
    {
      i <= 8 && buf.Length == 8
    }

    /** The characters kept for the next call. */
    ghost function Pending(): (s: seq<byte>)
      reads this, buf
      requires Valid()
      ensures |s| < 8
    {
      if i == 8 then [] else buf[..i]
    }

    constructor ()
      ensures Valid() && Pending() == [] && fresh(buf)
    {
      i := 0;
      buf := new byte[8];
    }
  }

  /** Up to eight characters that are no newlines: straight from the input, or gathered in the context. */
  method Get8(ctx: DecodeContext, input: seq<byte>, pos: nat) returns (block: seq<byte>, pos': nat)
    requires ctx.Valid() && pos <= |input|
    modifies ctx`i, ctx.buf
    ensures ctx.Valid() && pos <= pos' <= |input| && (pos < |input| ==> pos < pos')
    ensures block == old(ctx.Pending()) + Text(input[pos..pos']) && |block| <= 8
    ensures ctx.Pending() == if |block| == 8 then [] else block
    ensures |block| < 8 ==> pos' == |input|
  {
    if ctx.i == 8 {
      ctx.i := 0;
    }
    if ctx.i == 0 && 8 <= |input| - pos && NEWLINE !in input[pos..pos + 8] {
      TextPlain(input[pos..pos + 8]);
      return input[pos..pos + 8], pos + 8;
    }
    pos' := Gather(ctx, input, pos);
    block := ctx.buf[..ctx.i];
  }

  /** Copies characters that are no newlines into the context, until it is full. */
  method Gather(ctx: DecodeContext, input: seq<byte>, pos: nat) returns (pos': nat)
    requires ctx.Valid() && ctx.i < 8 && pos <= |input|
    modifies ctx`i, ctx.buf
    ensures ctx.Valid() && pos <= pos' <= |input| && (pos < |input| ==> pos < pos')
    ensures ctx.buf[..ctx.i] == old(ctx.buf[..ctx.i]) + Text(input[pos..pos'])
    ensures ctx.i < 8 ==> pos' == |input|
  {
    hide NoNewline;
    ghost var start := ctx.buf[..ctx.i];
    pos' := pos;
    assert input[pos..pos] == [] && start + [] == start;
    while pos' < |input| && ctx.i < 8
      invariant pos <= pos' <= |input| && ctx.i <= 8
      invariant ctx.buf[..ctx.i] == start + Text(input[pos..pos'])
      invariant ctx.i < 8 || pos < pos'
    {
      NextText(start, input, pos, pos');
      ghost var kept := ctx.buf[..ctx.i];
      if input[pos'] != NEWLINE {
        ctx.buf[ctx.i] := input[pos'];
        ctx.i := ctx.i + 1;
        assert ctx.buf[..ctx.i] == kept + [input[pos']];
      }
      pos' := pos' + 1;
    }
  }

  lemma NextText(start: seq<byte>, input: seq<byte>, pos: nat, pos': nat)
    requires pos <= pos' < |input|
    ensures var kept, more := start + Text(input[pos..pos']), start + Text(input[pos..pos' + 1]);
            more == if input[pos'] == NEWLINE then kept else kept + [input[pos']]
  {
    var c := input[pos'];
    assert input[pos..pos' + 1] == input[pos..pos'] + [c];
    TextConcat(input[pos..pos'], [c]);
    assert Text([c]) == NoNewline(c) + Text([]) == NoNewline(c);
    Associative(start, Text(input[pos..pos']), NoNewline(c));
    assert start + Text(input[pos..pos']) + [] == start + Text(input[pos..pos']);
  }

  /** Decoding `all` starts with `bytes` and goes on with `rest`. */
  ghost predicate Fed(all: seq<byte>, bytes: seq<byte>, rest: seq<byte>) {
    Run(all) == After(bytes, Run(rest))
  }

  lemma FedNothing(all: seq<byte>)
    ensures Fed(all, [], all)
  {
    AfterAfter([], [], Run(all));
  }

  lemma FedRun(all: seq<byte>, bytes: seq<byte>, s: seq<byte>, more: seq<byte>, t: seq<byte>)
    requires Fed(all, bytes, [] + Text(s)) && Ran(s, more, t)
    ensures Fed(all, bytes + more, [] + Text(t))
  {
    assert [] + Text(s) == Text(s) && [] + Text(t) == Text(t);
    AfterAfter(bytes, more, Run(Text(t)));
  }

  lemma FedBlock(all: seq<byte>, bytes: seq<byte>, block: seq<byte>, rest: seq<byte>)
    requires Fed(all, bytes, block + rest) && |block| == 8
    ensures DecodeGroup(block).Some? ==> Fed(all, bytes + DecodeGroup(block).value, [] + rest)
    ensures DecodeGroup(block).None? ==> Run(all) == Bad(bytes)
  {
    RunBlock(block, rest);
    assert [] + rest == rest && bytes + [] == bytes;
    if DecodeGroup(block).Some? {
      AfterAfter(bytes, DecodeGroup(block).value, Run(rest));
    }
  }

  lemma FedAll(all: seq<byte>, bytes: seq<byte>, left: seq<byte>)
    requires |left| < 8 && Fed(all, bytes, left + Text([]))
    ensures Run(all) == Good(bytes, left)
  {
    assert left + Text([]) == left && bytes + [] == bytes;
  }

  lemma FedNewline(input: seq<byte>, pos: nat)
    requires pos < |input| && input[pos] == NEWLINE
    ensures Text(input[pos..]) == Text(input[pos + 1..])
  {
    assert input[pos..][1..] == input[pos + 1..];
  }

  lemma BlockText(pending: seq<byte>, input: seq<byte>, pos: nat, pos': nat)
    requires pos <= pos' <= |input|
    ensures pending + Text(input[pos..]) == (pending + Text(input[pos..pos'])) + Text(input[pos'..])
  {
    assert input[pos..] == input[pos..pos'] + input[pos'..];
    TextConcat(input[pos..pos'], input[pos'..]);
  }

  datatype Turn = Done | Failed | Again

  /** How the decoder stands: `bytes` are decoded, and what is pending and what is to come still are not. */
  ghost predicate Midway(ctx: DecodeContext, rest: seq<byte>, out: array<byte>, o: nat,
                         all: seq<byte>, bytes: seq<byte>)
    reads ctx, ctx.buf, out
  {
    ctx.Valid() && o <= out.Length && Holds(out, o, bytes) && Fed(all, bytes, ctx.Pending() + Text(rest))
  }

  /** How it stands at the end. */
  ghost predicate Finished(ctx: DecodeContext, ok: bool, out: array<byte>, o: nat, all: seq<byte>)
    reads ctx, ctx.buf, out
  {
    var r := Run(all);
    && ctx.Valid() && o <= out.Length && (ok <==> r.Good?)
    && (ok ==> ctx.Pending() == r.left && Holds(out, o, r.bytes))
    && (!ok ==> Min(|r.bytes|, out.Length) <= o && Holds(out, Min(|r.bytes|, out.Length), r.bytes))
  }

  /** A block of eight characters through the context. */
  method DecodeBlock(ctx: DecodeContext, input: seq<byte>, pos: nat, out: array<byte>, o: nat,
                     ghost all: seq<byte>, ghost bytes: seq<byte>)
    returns (turn: Turn, pos': nat, o': nat, ghost bytes': seq<byte>)
    requires pos < |input| && out != ctx.buf && Midway(ctx, input[pos..], out, o, all, bytes)
    modifies ctx`i, ctx.buf, out
    ensures turn.Again? ==>
              && pos < pos' <= |input| && ctx.Valid() && ctx.Pending() == []
              && Midway(ctx, input[pos'..], out, o', all, bytes')
    ensures !turn.Again? ==> Finished(ctx, turn.Done?, out, o', all)
  {
    hide Fed, Holds, DecodeGroup;
    o', bytes' := o, bytes;
    ghost var pending := ctx.Pending();
    var block;
    block, pos' := Get8(ctx, input, pos);
    BlockText(pending, input, pos, pos');
    if |block| < 8 {
      FedAll(all, bytes, block);
      return Done, pos', o', bytes';
    }
    FedBlock(all, bytes, block, Text(input[pos'..]));
    assert block[..8] == block;
    HoldsLength(out, o, bytes);
    var ok;
    ok, o' := Decode8(block, out, o, bytes);
    if !ok {
      return Failed, pos', o', bytes';
    }
    bytes' := bytes + DecodeGroup(block).value;
    turn := Again;
  }

  /** The groups that can be taken straight from the input, while nothing is pending. */
  method DecodeFast(ctx: DecodeContext, input: seq<byte>, pos: nat, out: array<byte>, o: nat,
                    ghost all: seq<byte>, ghost bytes: seq<byte>)
    returns (pos': nat, o': nat, ghost bytes': seq<byte>)
    requires pos <= |input| && out != ctx.buf && Midway(ctx, input[pos..], out, o, all, bytes) && ctx.Pending() == []
    modifies out
    ensures pos <= pos' <= |input| && Midway(ctx, input[pos'..], out, o', all, bytes')
  {
    hide Ran, Fed, Holds, DecodeGroup;
    ghost var more;
    pos', o', more := DecodeRun(input, pos, out, o, bytes);
    FedRun(all, bytes, input[pos..], more, input[pos'..]);
    bytes' := bytes + more;
  }

  lemma MidwayStart(ctx: DecodeContext, input: seq<byte>, out: array<byte>)
    requires ctx.Valid()
    ensures Midway(ctx, input[0..], out, 0, ctx.Pending() + Text(input), [])
  {
    assert input[0..] == input;
    FedNothing(ctx.Pending() + Text(input));
    HoldsNothing(out);
  }

  lemma MidwayNewline(ctx: DecodeContext, input: seq<byte>, pos: nat, out: array<byte>, o: nat,
                      all: seq<byte>, bytes: seq<byte>)
    requires pos < |input| && input[pos] == NEWLINE && Midway(ctx, input[pos..], out, o, all, bytes)
    ensures Midway(ctx, input[pos + 1..], out, o, all, bytes)
  {
    FedNewline(input, pos);
  }

  lemma MidwayEnd(ctx: DecodeContext, out: array<byte>, o: nat, all: seq<byte>, bytes: seq<byte>)
    requires Midway(ctx, [], out, o, all, bytes)
    ensures Finished(ctx, true, out, o, all)
  {
    FedAll(all, bytes, ctx.Pending());
  }

  /** One call with input. Whether it succeeds or not, the bytes of the good groups are there. */
  method DecodePiece(ctx: DecodeContext, input: seq<byte>, out: array<byte>) returns (ok: bool, outlen: nat)
    requires ctx.Valid() && input != [] && out != ctx.buf
    modifies ctx`i, ctx.buf, out
    ensures ctx.Valid() && outlen <= out.Length
    ensures var r := Run(old(ctx.Pending()) + Text(input));
            && (ok <==> r.Good?)
            && (ok ==> ctx.Pending() == r.left && Holds(out, outlen, r.bytes))
            && (!ok ==> Min(|r.bytes|, out.Length) <= outlen && Holds(out, Min(|r.bytes|, out.Length), r.bytes))
  {
    hide Midway, Holds;
    var ctxI := ctx.i;
    var pos := 0;
    outlen := 0;
    ghost var all, bytes: seq<byte> := ctx.Pending() + Text(input), [];
    MidwayStart(ctx, input, out);
    while true
      invariant ctx.Valid() && pos <= |input| && Midway(ctx, input[pos..], out, outlen, all, bytes)
      invariant ctxI == 0 ==> ctx.Pending() == []
      decreases |input| - pos
    {
      if ctxI == 0 {
        pos, outlen, bytes := DecodeFast(ctx, input, pos, out, outlen, all, bytes);
      }
      if pos == |input| {
        assert input[pos..] == [];
        MidwayEnd(ctx, out, outlen, all, bytes);
        return true, outlen;
      }
      if input[pos] == NEWLINE {
        MidwayNewline(ctx, input, pos, out, outlen, all, bytes);
        pos := pos + 1;
        continue;
      }
      var turn;
      turn, pos, outlen, bytes := DecodeBlock(ctx, input, pos, out, outlen, all, bytes);
      if !turn.Again? {
        return turn.Done?, outlen;
      }
    }
  }

  /** The last call, without input: it fails if characters are left over. */
  method Flush(ctx: DecodeContext) returns (ok: bool)
    requires ctx.Valid()
    modifies ctx`i, ctx.buf
    ensures ok <==> old(ctx.Pending()) == []
  {
    var block, pos := Get8(ctx, [], 0);
    assert Text([]) == [];
    if |block| == 0 {
      return true;
    }
    var none := new byte[0];
    var o;
    ok, o := Decode8(block, none, 0, []);
  }

  function Join(pieces: seq<seq<byte>>): seq<byte> {
    if pieces == [] then [] else pieces[0] + Join(pieces[1..])
  }

  /** What one call decodes, and what it leaves for the next. */
  lemma FedPiece(all: seq<byte>, bytes: seq<byte>, pending: seq<byte>, pieces: seq<seq<byte>>, k: nat)
    requires k < |pieces| && Fed(all, bytes, pending + Text(Join(pieces[k..])))
    ensures var r := Run(pending + Text(pieces[k]));
            && (r.Bad? ==> Run(all).Bad?)
            && (r.Good? ==> Fed(all, bytes + r.bytes, r.left + Text(Join(pieces[k + 1..]))))
  {
    var rest := Text(Join(pieces[k + 1..]));
    assert pieces[k..][1..] == pieces[k + 1..];
    TextConcat(pieces[k], Join(pieces[k + 1..]));
    assert pending + Text(Join(pieces[k..])) == (pending + Text(pieces[k])) + rest;
    RunConcat(pending + Text(pieces[k]), rest);
    var r := Run(pending + Text(pieces[k]));
    if r.Good? {
      AfterAfter(bytes, r.bytes, Run(r.left + rest));
    }
  }

  lemma HoldsLength(out: array<byte>, o: nat, bytes: seq<byte>)
    requires Holds(out, o, bytes)
    ensures o == Min(|bytes|, out.Length)
  {
  }

  lemma HoldsNothing(out: array<byte>)
    ensures Holds(out, 0, [])
  {
  }

  /** A call never decodes more than five bytes for every eight characters. */
  lemma {:induction false} Fits(t: seq<byte>, n: nat)
    requires |t| <= 7 + n
    ensures Run(t).Good? ==> |Run(t).bytes| <= 5 * ((7 + n) / 8)
    decreases |t|
  {
    hide DecodeGroup;
    if |t| >= 8 && n >= 8 {
      Fits(t[8..], n - 8);
      assert (7 + n) / 8 == (7 + (n - 8)) / 8 + 1;
    } else if |t| >= 8 {
      assert (7 + n) / 8 == 1 && Run(t[8..]) == Good([], t[8..]);
    }
  }

  lemma {:induction false} TextShorter(s: seq<byte>)
    ensures |Text(s)| <= |s|
  {
    if s != [] {
      TextShorter(s[1..]);
    }
  }

  /** Decodes one piece into a buffer of its own. */
  method DecodeInto(ctx: DecodeContext, piece: seq<byte>) returns (ok: bool, bytes: seq<byte>)
    requires ctx.Valid() && piece != []
    modifies ctx`i, ctx.buf
    ensures ctx.Valid()
    ensures var r := Run(old(ctx.Pending()) + Text(piece));
            && (ok <==> r.Good?)
            && (ok ==> ctx.Pending() == r.left && bytes == r.bytes)
  {
    TextShorter(piece);
    Fits(ctx.Pending() + Text(piece), |piece|);
    var out := new byte[5 * ((7 + |piece|) / 8)];
    var outlen;
    ok, outlen := DecodePiece(ctx, piece, out);
    bytes := out[..outlen];
  }

  /** Any pieces, one call each, and a flush: the same as decoding the text without newlines at once. */
  method DecodePieces(pieces: seq<seq<byte>>) returns (ok: bool, bytes: seq<byte>)
    requires forall k | 0 <= k < |pieces| :: pieces[k] != []
    ensures ok <==> Decode(Text(Join(pieces))).Some?
    ensures ok ==> bytes == Decode(Text(Join(pieces))).value
  {
    hide Fed;
    var ctx := new DecodeContext();
    bytes := [];
    var k := 0;
    ghost var all := Text(Join(pieces));
    DecodeIsRun(all);
    assert pieces[0..] == pieces && [] + all == all;
    FedNothing(all);
    while k < |pieces|
      invariant 0 <= k <= |pieces| && ctx.Valid() && fresh(ctx) && fresh(ctx.buf)
      invariant Fed(all, bytes, ctx.Pending() + Text(Join(pieces[k..])))
    {
      FedPiece(all, bytes, ctx.Pending(), pieces, k);
      var more;
      ok, more := DecodeInto(ctx, pieces[k]);
      if !ok {
        return;
      }
      bytes := bytes + more;
      k := k + 1;
    }
    FedAll(all, bytes, ctx.Pending());
    ok := Flush(ctx);
  }
}
