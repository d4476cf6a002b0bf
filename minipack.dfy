/** The MiniPack decompressor of the dsPack reader: a byte-oriented LZ77
    variant.  The compressed stream is a sequence of control bytes, each
    followed by up to eight tokens; bit k of the control byte (least
    significant first) selects a literal (1) or a back-reference (0).  A
    back-reference is two bytes b0, b1 giving a 12-bit distance
    ((b1 & 0xF0) << 4) | b0 and a length (b1 & 0x0F) + 3, copied one byte at a
    time into a zero-filled output buffer of the announced size.

    The buffer is a Python bytearray: a read index below zero counts from the
    end of the buffer, and any index outside it raises IndexError.  The
    reference definition is a small-step machine: Next performs one step of
    the two nested loops (read a control byte, handle one token, or leave the
    bit loop) and Run iterates it; Decompress is the buffer-updating loop
    proved equal to it. */
module MiniPack {
  import opened Results
  import opened Bytes

  /** The only failure decompression can raise. */
  datatype DecodeError = IndexError

  /** Where the decoder is in its two nested loops: at the head of the outer
      loop, or in the bit loop of a control byte with flags `flags`, about to
      handle bit `bit`. */
  datatype Phase = Outer | Bits(flags: seq<bool>, bit: nat)

  /** The decoder's cursors, the output buffer and the loop it is in. */
  datatype State = State(inPos: nat, outPos: nat, out: seq<byte>, phase: Phase)

  /** Resolving index `k` into a bytearray of length `n`: -n <= k < 0 counts
      from the end, anything outside [-n, n) is an IndexError. */
  function PyIndex(n: nat, k: int): (r: Option<nat>)
    ensures r.Some? <==> -(n as int) <= k < n
    ensures r.Some? ==> r.value < n && r.value == (if k < 0 then k + n else k)
  {
    if 0 <= k < n then Some(k) else if -(n as int) <= k < 0 then Some(k + n) else None
  }

  /** `(control & (1 << bit)) != 0`. */
  predicate BitSet(control: byte, bit: nat)
    requires bit < 8
  {
    (control as bv8 & (1 as bv8 << bit)) != 0
  }

  /** The eight flags of a control byte, least significant bit first. */
  function Flags(control: byte): (f: seq<bool>)
    ensures |f| == 8
  {
    seq(8, k requires 0 <= k < 8 => BitSet(control, k))
  }

  lemma FlagsAt(control: byte, k: nat)
    requires k < 8
    ensures Flags(control)[k] == BitSet(control, k)
  {
  }

  function Pow2(k: nat): (r: nat)
    ensures r > 0
  {
    if k == 0 then 1 else 2 * Pow2(k - 1)
  }

  /** Flag k of a control byte is its binary digit of weight 2^k: the flags
      read the byte from the least significant bit up. */
  lemma FlagsAsBits(control: byte, k: nat)
    requires k < 8
    ensures Flags(control)[k] <==> (control as int / Pow2(k)) % 2 == 1
  {
    if k == 0 { assert Pow2(0) == 1; }
    else if k == 1 { assert Pow2(1) == 2; }
    else if k == 2 { assert Pow2(2) == 4; }
    else if k == 3 { assert Pow2(3) == 8; }
    else if k == 4 { assert Pow2(4) == 16; }
    else if k == 5 { assert Pow2(5) == 32; }
    else if k == 6 { assert Pow2(6) == 64; }
    else { assert Pow2(7) == 128; }
  }

  /** The distance of a back-reference, `((b1 & 0xF0) << 4) | b0`: the high
      nibble of b1 above the eight bits of b0. */
  function Distance(b0: byte, b1: byte): (d: nat)
    ensures d < 4096
  {
    (b1 / 16) * 256 + b0
  }

  /** The length of a back-reference, `(b1 & 0x0F) + 3`: the low nibble of b1
      plus three. */
  function CopyLength(b1: byte): (n: nat)
    ensures 3 <= n <= 18
  {
    b1 % 16 + 3
  }

  /** The inner copy loop: `count` single-byte copies from `offset` back. */
  function CopyBack(out: seq<byte>, outPos: nat, offset: nat, count: nat): (r: Result<(seq<byte>, nat), DecodeError>)
    requires outPos <= |out|
    ensures r.Success? ==> |r.value.0| == |out| && r.value.1 == outPos + count <= |out|
    decreases count
  {
    if count == 0 then Success((out, outPos))
    else
      match PyIndex(|out|, outPos - offset)
      case None => Failure(IndexError)
      case Some(src) =>
        if outPos >= |out| then Failure(IndexError)
        else CopyBack(out[outPos := out[src]], outPos + 1, offset, count - 1)
  }

  /** The cursors lie within the input and the buffer, and a bit loop has
      eight flags and at most eight bits done. */
  predicate Valid(input: seq<byte>, st: State) {
    st.inPos <= |input| && st.outPos <= |st.out| &&
    (st.phase.Bits? ==> |st.phase.flags| == 8 && st.phase.bit <= 8)
  }

  /** The outer loop's test `input_pos < len(input_data)` has failed. */
  predicate Halted(input: seq<byte>, st: State) {
    st.phase.Outer? && st.inPos >= |input|
  }

  /** How far a phase is from the head of the outer loop. */
  function Rank(p: Phase): nat {
    match p
    case Outer => 0
    case Bits(_, bit) => if bit <= 8 then 9 - bit else 0
  }

  /** One step consumes input, or stays on the same input byte and moves
      closer to the head of the outer loop. */
  predicate Progress(st: State, next: State) {
    st.inPos < next.inPos || (st.inPos == next.inPos && Rank(next.phase) < Rank(st.phase))
  }

  /** After a token: `if output_pos >= len(output_data): break`, otherwise
      the next bit. */
  function AfterToken(st: State): (r: State)
    requires st.phase.Bits?
    ensures r.inPos == st.inPos && r.outPos == st.outPos && r.out == st.out
    ensures r.phase.Outer? <==> st.outPos >= |st.out|
  {
    if st.outPos >= |st.out| then st.(phase := Outer) else st.(phase := Bits(st.phase.flags, st.phase.bit + 1))
  }

  /** One step of the nested loops.  At the head of the outer loop: read the
      control byte.  In the bit loop: leave it after eight bits, at the end
      of the input, or before a back-reference with one byte left; otherwise
      handle the token for this bit, a literal byte when the flag is set,
      else a back-reference read from the next two input bytes. */
  function Next(input: seq<byte>, st: State): (r: Result<State, DecodeError>)
    requires Valid(input, st) && !Halted(input, st)
    ensures r.Success? ==> Valid(input, r.value) && Progress(st, r.value)
    ensures r.Success? ==> |r.value.out| == |st.out| && st.outPos <= r.value.outPos
  {
    match st.phase
    case Outer => Success(State(st.inPos + 1, st.outPos, st.out, Bits(Flags(input[st.inPos]), 0)))
    case Bits(flags, bit) =>
      if bit == 8 || st.inPos >= |input| || (!flags[bit] && st.inPos + 1 >= |input|) then
        Success(st.(phase := Outer))
      else if flags[bit] then
        if st.outPos >= |st.out| then Failure(IndexError)
        else Success(AfterToken(State(st.inPos + 1, st.outPos + 1, st.out[st.outPos := input[st.inPos]], st.phase)))
      else
        match CopyBack(st.out, st.outPos, Distance(input[st.inPos], input[st.inPos + 1]), CopyLength(input[st.inPos + 1]))
        case Failure(e) => Failure(e)
        case Success(moved) => Success(AfterToken(State(st.inPos + 2, moved.1, moved.0, st.phase)))
  }

  /** Steps until the outer loop ends, or the first IndexError. */
  function Run(input: seq<byte>, st: State): (r: Result<State, DecodeError>)
    requires Valid(input, st)
    ensures r.Success? ==> Halted(input, r.value) && Valid(input, r.value)
    ensures r.Success? ==> |r.value.out| == |st.out| && st.outPos <= r.value.outPos
    decreases |input| - st.inPos, Rank(st.phase), 1
  {
    if Halted(input, st) then Success(st) else Then(input, st, Next(input, st))
  }

  /** The rest of the run after the step from `st` gave `step`. */
  function Then(input: seq<byte>, st: State, step: Result<State, DecodeError>): (r: Result<State, DecodeError>)
    requires Valid(input, st)
    requires step.Success? ==> Valid(input, step.value) && Progress(st, step.value) && |step.value.out| == |st.out| && st.outPos <= step.value.outPos
    ensures r.Success? ==> Halted(input, r.value) && Valid(input, r.value)
    ensures r.Success? ==> |r.value.out| == |st.out| && st.outPos <= r.value.outPos
    decreases |input| - st.inPos, Rank(st.phase), 0
  {
    match step
    case Failure(e) => Failure(e)
    case Success(next) => Run(input, next)
  }

  function Zeros(n: nat): (z: seq<byte>)
    ensures |z| == n && forall k :: 0 <= k < n ==> z[k] == 0
  {
    seq(n, _ => 0)
  }

  /** A fresh decoder: both cursors at 0, a zero-filled buffer of `size` bytes. */
  function Start(size: nat): State {
    State(0, 0, Zeros(size), Outer)
  }

  /** `MiniPackDecompressor().decompress(compressed, size)`: the buffer on
      normal return, or the IndexError the loop raised. */
  function Decode(compressed: seq<byte>, size: nat): (r: Result<seq<byte>, DecodeError>)
    ensures r.Success? ==> |r.value| == size
    ensures r.Failure? <==> Run(compressed, Start(size)).Failure?
  {
    match Run(compressed, Start(size))
    case Failure(e) => Failure(e)
    case Success(st) => Success(st.out)
  }

  // ---------------------------------------------------------------------------
  // Properties of the reference definition
  // ---------------------------------------------------------------------------

  /** A step that succeeds leaves the rest of the run unchanged. */
  lemma RunStep(input: seq<byte>, st: State, next: State)
    requires Valid(input, st) && !Halted(input, st) && Next(input, st) == Success(next)
    ensures Valid(input, next) && Run(input, st) == Run(input, next)
  {
  }

  /** A step that fails ends the run with that failure. */
  lemma RunFailStep(input: seq<byte>, st: State)
    requires Valid(input, st) && !Halted(input, st) && Next(input, st).Failure?
    ensures Run(input, st).Failure?
  {
  }

  /** A cleared flag with two input bytes left makes the token a
      back-reference of distance `offset` and length `length`; when the copy
      succeeds the run goes on from the moved cursors. */
  lemma BackRefToken(input: seq<byte>, st: State, offset: nat, length: nat, moved: (seq<byte>, nat))
    requires Valid(input, st) && st.phase.Bits? && st.phase.bit < 8 && !st.phase.flags[st.phase.bit]
    requires st.inPos + 1 < |input|
    requires offset == Distance(input[st.inPos], input[st.inPos + 1]) && length == CopyLength(input[st.inPos + 1])
    requires CopyBack(st.out, st.outPos, offset, length) == Success(moved)
    ensures moved.1 <= |moved.0| && Run(input, st) == Run(input, AfterToken(State(st.inPos + 2, moved.1, moved.0, st.phase)))
  {
    RunStep(input, st, AfterToken(State(st.inPos + 2, moved.1, moved.0, st.phase)));
  }

  /** Decode returns the buffer of the state the run ends in. */
  lemma DecodeRun(input: seq<byte>, size: nat, last: State)
    requires Run(input, Start(size)) == Success(last)
    ensures Decode(input, size) == Success(last.out)
  {
  }

  lemma CopyStep(out: seq<byte>, outPos: nat, offset: nat, count: nat, src: nat)
    requires outPos < |out| && count > 0
    requires PyIndex(|out|, outPos - offset) == Some(src)
    ensures CopyBack(out, outPos, offset, count) == CopyBack(out[outPos := out[src]], outPos + 1, offset, count - 1)
  {
  }

  /** A back-reference copy touches only the `count` bytes from `outPos`. */
  lemma {:induction false} CopyBackFrame(out: seq<byte>, outPos: nat, offset: nat, count: nat)
    requires outPos <= |out| && CopyBack(out, outPos, offset, count).Success?
    ensures forall k :: 0 <= k < outPos ==> CopyBack(out, outPos, offset, count).value.0[k] == out[k]
    ensures forall k :: outPos + count <= k < |out| ==> CopyBack(out, outPos, offset, count).value.0[k] == out[k]
    decreases count
  {
    if count > 0 {
      var src := PyIndex(|out|, outPos - offset).value;
      CopyBackFrame(out[outPos := out[src]], outPos + 1, offset, count - 1);
    }
  }

  /** Within the buffer, a copy fails only by running off its end: with a
      distance no larger than the buffer every read index is valid (a
      negative one counts from the end), so the copy succeeds exactly when
      its last byte still fits. */
  lemma {:induction false} CopyBackSucceeds(out: seq<byte>, outPos: nat, offset: nat, count: nat)
    requires outPos <= |out| && offset <= |out|
    ensures CopyBack(out, outPos, offset, count).Success? <==> outPos + count <= |out|
    decreases count
  {
    if count > 0 && outPos < |out| {
      var src := PyIndex(|out|, outPos - offset).value;
      CopyBackSucceeds(out[outPos := out[src]], outPos + 1, offset, count - 1);
    }
  }

  /** Copying byte by byte makes an overlapping back-reference repeat a
      pattern: every byte written equals the byte `offset` before it in the
      result, and the bytes before `outPos` are kept. */
  lemma {:induction false} CopyBackRepeats(out: seq<byte>, outPos: nat, offset: nat, count: nat)
    requires 1 <= offset <= outPos <= |out| && CopyBack(out, outPos, offset, count).Success?
    ensures forall j :: outPos <= j < outPos + count ==>
      CopyBack(out, outPos, offset, count).value.0[j] == CopyBack(out, outPos, offset, count).value.0[j - offset]
    decreases count
  {
    if count > 0 {
      var src := PyIndex(|out|, outPos - offset).value;
      var out1 := out[outPos := out[src]];
      var r := CopyBack(out1, outPos + 1, offset, count - 1).value.0;
      CopyBackRepeats(out1, outPos + 1, offset, count - 1);
      CopyBackFrame(out1, outPos + 1, offset, count - 1);
      assert r[outPos] == out1[outPos] == out[outPos - offset] == r[outPos - offset];
    }
  }

  /** A step leaves every byte from its new output cursor on as it was. */
  lemma NextTail(input: seq<byte>, st: State)
    requires Valid(input, st) && !Halted(input, st) && Next(input, st).Success?
    ensures forall k :: Next(input, st).value.outPos <= k < |st.out| ==> Next(input, st).value.out[k] == st.out[k]
  {
    if st.phase.Bits? {
      var flags, bit := st.phase.flags, st.phase.bit;
      if !(bit == 8 || st.inPos >= |input| || (!flags[bit] && st.inPos + 1 >= |input|)) && !flags[bit] {
        CopyBackFrame(st.out, st.outPos, Distance(input[st.inPos], input[st.inPos + 1]), CopyLength(input[st.inPos + 1]));
      }
    }
  }

  /** The whole run leaves every byte from its final output cursor on as it
      was. */
  lemma {:induction false} RunTail(input: seq<byte>, st: State)
    requires Valid(input, st) && Run(input, st).Success?
    ensures forall k :: Run(input, st).value.outPos <= k < |st.out| ==> Run(input, st).value.out[k] == st.out[k]
    decreases |input| - st.inPos, Rank(st.phase)
  {
    if !Halted(input, st) {
      var next := Next(input, st).value;
      NextTail(input, st);
      RunStep(input, st, next);
      RunTail(input, next);
    }
  }

  /** Bytes the decoder never reaches keep the buffer's initial zero: after a
      successful decode everything from the final output cursor on is 0
      (this is how a stream that ends early, for instance on a lone
      back-reference byte, still yields `size` bytes). */
  lemma DecodeTailZero(compressed: seq<byte>, size: nat)
    requires Run(compressed, Start(size)).Success?
    ensures forall k :: Run(compressed, Start(size)).value.outPos <= k < size ==> Decode(compressed, size).value[k] == 0
  {
    RunTail(compressed, Start(size));
  }

  // ---------------------------------------------------------------------------
  // A literal-only encoding, the inverse the decoder is checked against
  // ---------------------------------------------------------------------------

  /** The size of the next literal group: eight bytes, or what is left. */
  function GroupSize(n: nat): (m: nat)
    ensures m <= n && m <= 8 && (m == 8 || m == n) && (n > 0 ==> m > 0)
  {
    if n <= 8 then n else 8
  }

  /** Groups of up to eight bytes, each behind an all-literal control byte. */
  function LiteralEncode(data: seq<byte>): (r: seq<byte>)
    ensures |r| >= |data|
    decreases |data|
  {
    if data == [] then []
    else [0xFF] + data[..GroupSize(|data|)] + LiteralEncode(data[GroupSize(|data|)..])
  }

  /** The encoding costs one control byte per group of eight. */
  lemma {:induction false} LiteralEncodeLength(data: seq<byte>)
    ensures |LiteralEncode(data)| == |data| + (|data| + 7) / 8
    decreases |data|
  {
    if data != [] {
      LiteralEncodeLength(data[GroupSize(|data|)..]);
    }
  }

  /** Every flag of the control byte 0xFF is set. */
  lemma AllLiterals()
    ensures forall k :: 0 <= k < 8 ==> Flags(0xFF)[k]
  {
    forall k | 0 <= k < 8
      ensures Flags(0xFF)[k]
    {
      FlagsAt(0xFF, k);
      if k == 0 {} else if k == 1 {} else if k == 2 {} else if k == 3 {}
      else if k == 4 {} else if k == 5 {} else if k == 6 {} else {}
    }
  }

  /** `out` with the bytes from `p` on replaced by `d`. */
  function Splice(out: seq<byte>, p: nat, d: seq<byte>): (r: seq<byte>)
    requires p + |d| <= |out|
    ensures |r| == |out|
  {
    out[..p] + d + out[p + |d|..]
  }

  /** Splice puts `d` at `p` and keeps every other byte. */
  lemma SpliceAt(out: seq<byte>, p: nat, d: seq<byte>)
    requires p + |d| <= |out|
    ensures forall k :: 0 <= k < |out| ==> Splice(out, p, d)[k] == if p <= k < p + |d| then d[k - p] else out[k]
  {
  }

  lemma SpliceStep(out: seq<byte>, p: nat, d: seq<byte>)
    requires p + |d| <= |out| && d != []
    ensures Splice(out[p := d[0]], p + 1, d[1..]) == Splice(out, p, d)
  {
    SpliceAt(out[p := d[0]], p + 1, d[1..]);
    SpliceAt(out, p, d);
    assert forall k :: 0 <= k < |out| ==> Splice(out[p := d[0]], p + 1, d[1..])[k] == Splice(out, p, d)[k];
  }

  lemma SpliceWhole(out: seq<byte>, d: seq<byte>)
    requires |d| == |out|
    ensures Splice(out, 0, d) == d
  {
    assert out[..0] == [] && out[|d|..] == [];
  }

  lemma SpliceTwice(out: seq<byte>, p: nat, a: seq<byte>, b: seq<byte>)
    requires p + |a| + |b| <= |out|
    ensures Splice(Splice(out, p, a), p + |a|, b) == Splice(out, p, a + b)
  {
    SpliceAt(out, p, a);
    SpliceAt(Splice(out, p, a), p + |a|, b);
    SpliceAt(out, p, a + b);
    assert forall k :: 0 <= k < |out| ==> Splice(Splice(out, p, a), p + |a|, b)[k] == Splice(out, p, a + b)[k];
  }

  /** In state `st` a bit loop whose flags are all set has the bytes `d`
      ahead of it, followed by `rest`; they fit the buffer, and the loop
      ends with them, after its eighth bit or at the end of the input, in
      state `last`. */
  predicate LiteralsAhead(input: seq<byte>, st: State, d: seq<byte>, rest: seq<byte>, last: State) {
    Valid(input, st) && st.phase.Bits? && (forall k :: 0 <= k < 8 ==> st.phase.flags[k]) &&
    st.phase.bit + |d| <= 8 && (st.phase.bit + |d| == 8 || rest == []) &&
    input[st.inPos..] == d + rest && st.outPos + |d| <= |st.out| &&
    last == State(st.inPos + |d|, st.outPos + |d|, Splice(st.out, st.outPos, d), Outer)
  }

  /** A set flag makes the next input byte a literal: it is written at the
      output cursor and both cursors advance. */
  lemma LiteralToken(input: seq<byte>, st: State, d: seq<byte>, rest: seq<byte>, next: State)
    requires Valid(input, st) && st.phase.Bits? && st.phase.bit < 8 && st.phase.flags[st.phase.bit]
    requires input[st.inPos..] == d + rest && d != [] && st.outPos < |st.out|
    requires next == AfterToken(State(st.inPos + 1, st.outPos + 1, st.out[st.outPos := d[0]], st.phase))
    ensures Valid(input, next) && input[next.inPos..] == d[1..] + rest
    ensures Run(input, st) == Run(input, next)
  {
    assert input[st.inPos] == (d + rest)[0];
    assert input[next.inPos..] == (d + rest)[1..];
    RunStep(input, st, next);
  }

  /** The first of the literals ahead: the loop either ends with it, or has
      the remaining ones ahead. */
  lemma LiteralsFirst(input: seq<byte>, st: State, d: seq<byte>, rest: seq<byte>, last: State) returns (next: State)
    requires LiteralsAhead(input, st, d, rest, last) && d != []
    ensures Valid(input, next) && Run(input, st) == Run(input, next)
    ensures next.phase.Outer? ==> next == last
    ensures next.phase.Bits? ==> LiteralsAhead(input, next, d[1..], rest, last) && |d[1..]| < |d|
  {
    next := AfterToken(State(st.inPos + 1, st.outPos + 1, st.out[st.outPos := d[0]], st.phase));
    LiteralToken(input, st, d, rest, next);
    SpliceStep(st.out, st.outPos, d);
    if next.phase.Outer? {
      assert d[1..] == [] && next.out == Splice(next.out, next.outPos, d[1..]);
    }
  }

  /** The literals ahead move to the output and the bit loop ends in state
      `last`. */
  lemma {:induction false} LiteralTokens(input: seq<byte>, st: State, d: seq<byte>, rest: seq<byte>, last: State)
    requires LiteralsAhead(input, st, d, rest, last)
    ensures Valid(input, last) && Run(input, st) == Run(input, last)
    decreases |d|
  {
    if d == [] {
      assert Splice(st.out, st.outPos, d) == st.out;
      RunStep(input, st, last);
    } else {
      var next := LiteralsFirst(input, st, d, rest, last);
      if next.phase.Bits? {
        LiteralTokens(input, next, d[1..], rest, last);
      }
    }
  }

  /** Reading one byte off the front of a slice. */
  lemma SliceFront(s: seq<byte>, i: nat, x: byte, rest: seq<byte>)
    requires i <= |s| && s[i..] == [x] + rest
    ensures i < |s| && s[i] == x && s[i + 1..] == rest
  {
    assert s[i] == s[i..][0];
    assert s[i + 1..] == s[i..][1..];
  }

  /** One literal-only group from the head of the outer loop: the control
      byte 0xFF, then the bytes `group`, which move to the output. */
  lemma LiteralGroup(input: seq<byte>, st: State, group: seq<byte>, rest: seq<byte>, last: State)
    requires Valid(input, st) && st.phase.Outer? && input[st.inPos..] == [0xFF] + (group + rest)
    requires |group| <= 8 && (|group| == 8 || rest == []) && st.outPos + |group| <= |st.out|
    requires last == State(st.inPos + 1 + |group|, st.outPos + |group|, Splice(st.out, st.outPos, group), Outer)
    ensures Valid(input, last) && input[last.inPos..] == rest
    ensures Run(input, st) == Run(input, last)
  {
    SliceFront(input, st.inPos, 0xFF, group + rest);
    var first := State(st.inPos + 1, st.outPos, st.out, Bits(Flags(0xFF), 0));
    RunStep(input, st, first);
    AllLiterals();
    LiteralTokens(input, first, group, rest, last);
    assert input[last.inPos..] == input[first.inPos..][|group|..];
  }

  /** From the head of the outer loop, the literal-only encoding of `data`
      decodes to `data` at the output cursor. */
  lemma {:induction false} LiteralRun(input: seq<byte>, st: State, data: seq<byte>, last: State)
    requires Valid(input, st) && st.phase.Outer? && input[st.inPos..] == LiteralEncode(data)
    requires st.outPos + |data| == |st.out|
    requires last == State(|input|, |st.out|, Splice(st.out, st.outPos, data), Outer)
    ensures Run(input, st) == Success(last)
    decreases |data|
  {
    if data == [] {
      assert Splice(st.out, st.outPos, data) == st.out;
    } else {
      var m := GroupSize(|data|);
      var group, more := data[..m], data[m..];
      assert LiteralEncode(data) == [0xFF] + (group + LiteralEncode(more));
      var mid := State(st.inPos + 1 + m, st.outPos + m, Splice(st.out, st.outPos, group), Outer);
      LiteralGroup(input, st, group, LiteralEncode(more), mid);
      SpliceTwice(st.out, st.outPos, group, more);
      assert group + more == data;
      LiteralRun(input, mid, more, last);
    }
  }

  /** Decoding the literal-only encoding of any data gives the data back. */
  lemma LiteralRoundTrip(data: seq<byte>)
    ensures Decode(LiteralEncode(data), |data|) == Success(data)
  {
    var input := LiteralEncode(data);
    SpliceWhole(Zeros(|data|), data);
    assert input[0..] == input;
    LiteralRun(input, Start(|data|), data, State(|input|, |data|, data, Outer));
    DecodeRun(input, |data|, State(|input|, |data|, data, Outer));
  }

  // ---------------------------------------------------------------------------
  // Worked inputs
  // ---------------------------------------------------------------------------

  /** From the head of the outer loop, the control byte `control` opens its
      bit loop. */
  lemma ControlStep(input: seq<byte>, st: State, control: byte)
    requires Valid(input, st) && st.phase.Outer? && st.inPos < |input| && input[st.inPos] == control
    ensures Run(input, st) == Run(input, State(st.inPos + 1, st.outPos, st.out, Bits(Flags(control), 0)))
  {
    RunStep(input, st, State(st.inPos + 1, st.outPos, st.out, Bits(Flags(control), 0)));
  }

  /** The overlapping copy of "AAAA": distance 1, length 3 after one 'A'. */
  lemma RepeatedByteCopy(a: seq<byte>)
    requires a == [0x41, 0, 0, 0]
    ensures CopyBack(a, 1, 1, 3) == Success(([0x41, 0x41, 0x41, 0x41], 4))
  {
    CopyStep(a, 1, 1, 3, 0);
    assert a[1 := a[0]] == [0x41, 0x41, 0, 0];
    CopyStep([0x41, 0x41, 0, 0], 2, 1, 2, 1);
    assert [0x41, 0x41, 0, 0][2 := 0x41] == [0x41, 0x41, 0x41, 0];
    CopyStep([0x41, 0x41, 0x41, 0], 3, 1, 1, 2);
    assert [0x41, 0x41, 0x41, 0][3 := 0x41] == [0x41, 0x41, 0x41, 0x41];
  }

  /** The control byte 0x01 and its literal 'A'. */
  lemma FirstLiteral(input: seq<byte>, size: nat, a: seq<byte>)
    requires |input| >= 2 && input[0] == 0x01 && input[1] == 0x41
    requires size >= 1 && |a| == size && a[0] == 0x41 && forall k :: 1 <= k < size ==> a[k] == 0
    ensures Run(input, Start(size)) == Run(input, AfterToken(State(2, 1, a, Bits(Flags(0x01), 0))))
  {
    ControlStep(input, Start(size), 0x01);
    FlagsAt(0x01, 0);
    assert Zeros(size)[0 := 0x41] == a;
    RunStep(input, State(1, 0, Zeros(size), Bits(Flags(0x01), 0)), AfterToken(State(2, 1, a, Bits(Flags(0x01), 0))));
  }

  /** A literal 'A' then a back-reference of distance 1 and length 3 repeats
      it: `01 41 01 00` decodes to "AAAA". */
  lemma RepeatedByte(input: seq<byte>)
    requires input == [0x01, 0x41, 0x01, 0x00]
    ensures Decode(input, 4) == Success([0x41, 0x41, 0x41, 0x41])
  {
    var a: seq<byte> := [0x41, 0, 0, 0];
    FirstLiteral(input, 4, a);
    FlagsAt(0x01, 1);
    RepeatedByteCopy(a);
    assert input[2] == 1 && input[3] == 0;
    assert Distance(input[2], input[3]) == 1 && CopyLength(input[3]) == 3;
    BackRefToken(input, State(2, 1, a, Bits(Flags(0x01), 1)), 1, 3, ([0x41, 0x41, 0x41, 0x41], 4));
    DecodeRun(input, 4, State(4, 4, [0x41, 0x41, 0x41, 0x41], Outer));
  }

  /** A back-reference that runs past the buffer end raises mid-copy:
      `01 41 01 00` into three bytes. */
  lemma CopyPastEnd(input: seq<byte>)
    requires input == [0x01, 0x41, 0x01, 0x00]
    ensures Decode(input, 3) == Failure(IndexError)
  {
    var a: seq<byte> := [0x41, 0, 0];
    FirstLiteral(input, 3, a);
    FlagsAt(0x01, 1);
    CopyStep(a, 1, 1, 3, 0);
    CopyStep([0x41, 0x41, 0], 2, 1, 2, 1);
    assert CopyBack([0x41, 0x41, 0x41], 3, 1, 1).Failure?;
    assert a[1 := a[0]] == [0x41, 0x41, 0] && [0x41, 0x41, 0][2 := 0x41] == [0x41, 0x41, 0x41];
    assert input[2] == 1 && input[3] == 0;
    assert Distance(input[2], input[3]) == 1 && CopyLength(input[3]) == 3;
    RunFailStep(input, State(2, 1, a, Bits(Flags(0x01), 1)));
  }

  /** A full buffer ends only the bit loop: the next control byte is read and
      a further literal raises (`01 41 01 42` into one byte). */
  lemma LiteralPastEnd(input: seq<byte>)
    requires input == [0x01, 0x41, 0x01, 0x42]
    ensures Decode(input, 1) == Failure(IndexError)
  {
    FirstLiteral(input, 1, [0x41]);
    ControlStep(input, State(2, 1, [0x41], Outer), 0x01);
    FlagsAt(0x01, 0);
    RunFailStep(input, State(3, 1, [0x41], Bits(Flags(0x01), 0)));
  }

  /** A back-reference with only one byte left ends the bit loop without
      error; that byte is then read as a control byte, and the buffer keeps
      its zeros (`00 05` into four bytes). */
  lemma TruncatedBackReference(input: seq<byte>)
    requires input == [0x00, 0x05]
    ensures Decode(input, 4) == Success([0, 0, 0, 0])
  {
    var z: seq<byte> := [0, 0, 0, 0];
    assert Start(4) == State(0, 0, z, Outer);
    ControlStep(input, Start(4), 0x00);
    FlagsAt(0x00, 0);
    RunStep(input, State(1, 0, z, Bits(Flags(0x00), 0)), State(1, 0, z, Outer));
    ControlStep(input, State(1, 0, z, Outer), 0x05);
    RunStep(input, State(2, 0, z, Bits(Flags(0x05), 0)), State(2, 0, z, Outer));
    DecodeRun(input, 4, State(2, 0, z, Outer));
  }

  /** The "ABC" after the control byte 0x07 before its back-reference: a
      distance of 8 at output cursor 3 reads index -5, that is 1, so the
      copy repeats "BC" from the start of the buffer. */
  lemma WrapCopy(abc: seq<byte>)
    requires abc == [0x41, 0x42, 0x43, 0, 0, 0]
    ensures CopyBack(abc, 3, 8, 3) == Success(([0x41, 0x42, 0x43, 0x42, 0x43, 0x42], 6))
  {
    CopyStep(abc, 3, 8, 3, 1);
    assert abc[3 := abc[1]] == [0x41, 0x42, 0x43, 0x42, 0, 0];
    CopyStep([0x41, 0x42, 0x43, 0x42, 0, 0], 4, 8, 2, 2);
    assert [0x41, 0x42, 0x43, 0x42, 0, 0][4 := 0x43] == [0x41, 0x42, 0x43, 0x42, 0x43, 0];
    CopyStep([0x41, 0x42, 0x43, 0x42, 0x43, 0], 5, 8, 1, 3);
    assert [0x41, 0x42, 0x43, 0x42, 0x43, 0][5 := 0x42] == [0x41, 0x42, 0x43, 0x42, 0x43, 0x42];
  }

  /** The three literals of the control byte 0x07. */
  lemma WrapLiterals(input: seq<byte>)
    requires input == [0x07, 0x41, 0x42, 0x43, 0x08, 0x00]
    ensures Run(input, Start(6)) == Run(input, State(4, 3, [0x41, 0x42, 0x43, 0, 0, 0], Bits(Flags(0x07), 3)))
  {
    var flags := Flags(0x07);
    var z: seq<byte> := [0, 0, 0, 0, 0, 0];
    assert Start(6) == State(0, 0, z, Outer);
    ControlStep(input, Start(6), 0x07);
    FlagsAt(0x07, 0);
    assert z[0 := 0x41] == [0x41, 0, 0, 0, 0, 0];
    RunStep(input, State(1, 0, z, Bits(flags, 0)), State(2, 1, [0x41, 0, 0, 0, 0, 0], Bits(flags, 1)));
    FlagsAt(0x07, 1);
    assert [0x41, 0, 0, 0, 0, 0][1 := 0x42] == [0x41, 0x42, 0, 0, 0, 0];
    RunStep(input, State(2, 1, [0x41, 0, 0, 0, 0, 0], Bits(flags, 1)), State(3, 2, [0x41, 0x42, 0, 0, 0, 0], Bits(flags, 2)));
    FlagsAt(0x07, 2);
    assert [0x41, 0x42, 0, 0, 0, 0][2 := 0x43] == [0x41, 0x42, 0x43, 0, 0, 0];
    RunStep(input, State(3, 2, [0x41, 0x42, 0, 0, 0, 0], Bits(flags, 2)), State(4, 3, [0x41, 0x42, 0x43, 0, 0, 0], Bits(flags, 3)));
  }

  /** The back-reference of distance 8 and length 3 that follows. */
  lemma WrapBackRef(input: seq<byte>)
    requires input == [0x07, 0x41, 0x42, 0x43, 0x08, 0x00]
    ensures Run(input, State(4, 3, [0x41, 0x42, 0x43, 0, 0, 0], Bits(Flags(0x07), 3)))
         == Success(State(6, 6, [0x41, 0x42, 0x43, 0x42, 0x43, 0x42], Outer))
  {
    var abc: seq<byte> := [0x41, 0x42, 0x43, 0, 0, 0];
    FlagsAt(0x07, 3);
    WrapCopy(abc);
    assert input[4] == 8 && input[5] == 0;
    assert Distance(input[4], input[5]) == 8 && CopyLength(input[5]) == 3;
    BackRefToken(input, State(4, 3, abc, Bits(Flags(0x07), 3)), 8, 3, ([0x41, 0x42, 0x43, 0x42, 0x43, 0x42], 6));
  }

  /** A distance larger than the output cursor reads from the end of the
      buffer: `07 41 42 43 08 00` decodes to "ABCBCB". */
  lemma NegativeIndexWraps(input: seq<byte>)
    requires input == [0x07, 0x41, 0x42, 0x43, 0x08, 0x00]
    ensures Decode(input, 6) == Success([0x41, 0x42, 0x43, 0x42, 0x43, 0x42])
  {
    WrapLiterals(input);
    WrapBackRef(input);
    DecodeRun(input, 6, State(6, 6, [0x41, 0x42, 0x43, 0x42, 0x43, 0x42], Outer));
  }

  /** `MiniPackDecompressor`: the input, the bytearray being filled and the
      two cursors are fields that `decompress` resets and then advances. */
  class MiniPackDecompressor {
    var input: seq<byte>
    var output: array<byte>
    var inputPos: nat
    var outputPos: nat

    /** The fields as a decoder state in loop phase `phase`. */
    ghost function Cursor(phase: Phase): State
      reads this, output
    {
      State(inputPos, outputPos, output[..], phase)
    }

    constructor()
      ensures input == [] && output.Length == 0 && inputPos == 0 && outputPos == 0
    {
      input := [];
      output := new byte[0];
      inputPos, outputPos := 0, 0;
    }

    /** `MiniPackDecompressor().decompress(compressed, size)`: a fresh
        zero-filled buffer of the announced size, filled in place. */
    method Decompress(compressed: seq<byte>, decompressedSize: nat) returns (r: Result<seq<byte>, DecodeError>)
      modifies this
      ensures r == Decode(compressed, decompressedSize)
      ensures input == compressed && fresh(output)
      ensures r.Success? ==> output[..] == r.value && inputPos == |compressed|
    {
      input := compressed;
      output := new byte[decompressedSize](_ => 0);
      inputPos, outputPos := 0, 0;
      assert output[..] == Zeros(decompressedSize);
      ghost var whole := Run(input, Start(decompressedSize));
      while inputPos < |input|
        invariant input == compressed && fresh(output) && outputPos <= output.Length
        invariant inputPos <= |input| && Run(input, Cursor(Outer)) == whole
        decreases |input| - inputPos
      {
        ghost var before := Cursor(Outer);
        var control := input[inputPos];
        inputPos := inputPos + 1;
        RunStep(input, before, Cursor(Bits(Flags(control), 0)));
        var ok := DecodeGroup(control);
        if !ok {
          assert whole.Failure? && whole.error == IndexError;
          return Failure(IndexError);
        }
      }
      return Success(output[..]);
    }

    /** The bit loop `for bit in range(8)` over one control byte; a `break`
        returns true, an IndexError false. */
    method DecodeGroup(control: byte) returns (ok: bool)
      requires inputPos <= |input| && outputPos <= output.Length
      modifies this, output
      ensures input == old(input) && output == old(output)
      ensures ok ==> old(inputPos) <= inputPos <= |input| && outputPos <= output.Length
      ensures !ok ==> Run(input, old(Cursor(Bits(Flags(control), 0)))).Failure?
      ensures ok ==> Run(input, old(Cursor(Bits(Flags(control), 0)))) == Run(input, Cursor(Outer))
    {
      ghost var flags := Flags(control);
      ghost var group := Run(input, Cursor(Bits(flags, 0)));
      var bit := 0;
      while bit < 8
        invariant input == old(input) && output == old(output)
        invariant bit <= 8 && old(inputPos) <= inputPos <= |input| && outputPos <= output.Length
        invariant Run(input, Cursor(Bits(flags, bit))) == group
        decreases 8 - bit
      {
        FlagsAt(control, bit);
        if inputPos >= |input| || (!BitSet(control, bit) && inputPos + 1 >= |input|) {
          RunStep(input, Cursor(Bits(flags, bit)), Cursor(Outer));
          return true;
        }
        ghost var here := Cursor(Bits(flags, bit));
        var going := DecodeToken(control, bit);
        if !going {
          RunFailStep(input, here);
          return false;
        }
        if outputPos >= output.Length {
          RunStep(input, here, Cursor(Outer));
          return true;
        }
        RunStep(input, here, Cursor(Bits(flags, bit + 1)));
        bit := bit + 1;
      }
      RunStep(input, Cursor(Bits(flags, 8)), Cursor(Outer));
      return true;
    }

    /** One token: a literal byte when bit `bit` of the control byte is set,
        otherwise a back-reference read from the next two input bytes. */
    method DecodeToken(control: byte, bit: nat) returns (ok: bool)
      requires bit < 8 && inputPos < |input| && outputPos <= output.Length
      requires !BitSet(control, bit) ==> inputPos + 1 < |input|
      modifies this, output
      ensures input == old(input) && output == old(output)
      ensures !ok ==> Next(input, old(Cursor(Bits(Flags(control), bit)))).Failure?
      ensures ok ==> Next(input, old(Cursor(Bits(Flags(control), bit)))) == Success(AfterToken(Cursor(Bits(Flags(control), bit))))
    {
      ghost var flags := Flags(control);
      ghost var here := Cursor(Bits(flags, bit));
      FlagsAt(control, bit);
      if BitSet(control, bit) {
        if outputPos >= output.Length {
          return false;
        }
        output[outputPos] := input[inputPos];
        assert output[..] == here.out[here.outPos := input[here.inPos]];
        outputPos := outputPos + 1;
        inputPos := inputPos + 1;
        return true;
      }
      var offset := Distance(input[inputPos], input[inputPos + 1]);
      var length := CopyLength(input[inputPos + 1]);
      ok := CopyMatch(offset, length);
      inputPos := inputPos + 2;
    }

    /** The back-reference copy loop `for i in range(length)`, one byte at a
        time on the buffer itself, so that a distance shorter than the length
        re-reads bytes this same copy has just written. */
    method CopyMatch(offset: nat, length: nat) returns (ok: bool)
      requires outputPos <= output.Length
      modifies this, output
      ensures input == old(input) && output == old(output) && inputPos == old(inputPos)
      ensures ok <==> CopyBack(old(output[..]), old(outputPos), offset, length).Success?
      ensures ok ==> CopyBack(old(output[..]), old(outputPos), offset, length) == Success((output[..], outputPos))
    {
      ghost var copy := CopyBack(output[..], outputPos, offset, length);
      var i := 0;
      while i < length
        invariant input == old(input) && output == old(output) && inputPos == old(inputPos)
        invariant i <= length && outputPos == old(outputPos) + i && outputPos <= output.Length
        invariant CopyBack(output[..], outputPos, offset, length - i) == copy
        decreases length - i
      {
        var src := outputPos - offset;
        if src < -output.Length || src >= output.Length || outputPos >= output.Length {
          return false;
        }
        if src < 0 {
          src := src + output.Length;
        }
        ghost var pre := output[..];
        assert PyIndex(|pre|, outputPos - offset) == Some(src);
        output[outputPos] := output[src];
        assert output[..] == pre[outputPos := pre[src]];
        CopyStep(pre, outputPos, offset, length - i, src);
        outputPos := outputPos + 1;
        i := i + 1;
      }
      return true;
    }
  }
}
