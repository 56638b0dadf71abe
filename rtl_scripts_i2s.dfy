/**
 * Src/RTL/Scripts/i2s_mono_stereo_wrapper.py. It writes two files: an
 * audio-definitions header, and the `buf_audio_in` module. That module has
 * an I2S receiver clocked by the bit clock and, in the system clock domain,
 * a circular buffer for each audio channel.
 *
 * Each always block becomes a method. It reads every register's value from
 * before the clock edge, as non-blocking assignments do. A value-level
 * function specifies each step, and lemmas state what runs of steps do.
 */
module RtlScriptsI2s {
  import opened Common
  import opened I2sCli
  import opened I2sSerial

  // ------------------------------------------------------------ header

  /** The header's lines, with the text put in place of `STEREO` and the audio width. */
  function HeaderLines(stereo: string, audioWidth: int): seq<string> {
    HeaderTop + [StereoLineStart + stereo + ";", AudioWidthLineStart + IntToString(audioWidth) + ";"] + HeaderBottom
  }

  const HeaderTop: seq<string> := [
    "`ifndef __AUDIO_DEFS_VH__",
    "`define __AUDIO_DEFS_VH__",
    "",
    "// Audio processing configuration parameters",
    "localparam int DFX_REG_CTRL           = 0;"]
  const StereoLineStart: string := "localparam int STEREO                 = "
  const AudioWidthLineStart: string := "localparam int AUDIO_WIDTH            = "
  const BufferDepthLine: string := "localparam int BUFFER_DEPTH           = 4;"
  const HeaderBottom: seq<string> := [BufferDepthLine, "", "`endif // AUDIO_DEFS_VH", ""]

  lemma FixedLinesHaveNoNewline()
    ensures forall k :: 0 <= k < |HeaderTop| ==> '\n' !in HeaderTop[k]
    ensures forall k :: 0 <= k < |HeaderBottom| ==> '\n' !in HeaderBottom[k]
    ensures '\n' !in StereoLineStart && '\n' !in AudioWidthLineStart
  {
    TopLinesHaveNoNewline();
    BottomLinesHaveNoNewline();
    LineStartsHaveNoNewline();
  }

  /** One lemma per few literals: each literal is long, and together they are slow to unfold. */
  lemma TopLinesHaveNoNewline()
    ensures forall k :: 0 <= k < |HeaderTop| ==> '\n' !in HeaderTop[k]
  {
    GuardLinesHaveNoNewline();
    CommentLineHasNoNewline();
    CtrlLineHasNoNewline();
    assert '\n' !in HeaderTop[2];
  }

  lemma GuardLinesHaveNoNewline()
    ensures '\n' !in HeaderTop[0] && '\n' !in HeaderTop[1]
  {
  }

  lemma CommentLineHasNoNewline()
    ensures '\n' !in HeaderTop[3]
  {
  }

  lemma CtrlLineHasNoNewline()
    ensures '\n' !in HeaderTop[4]
  {
  }

  lemma BottomLinesHaveNoNewline()
    ensures forall k :: 0 <= k < |HeaderBottom| ==> '\n' !in HeaderBottom[k]
  {
  }

  lemma LineStartsHaveNoNewline()
    ensures '\n' !in StereoLineStart && '\n' !in AudioWidthLineStart
  {
  }

  /** Python's `str` of a bool. */
  function PyBool(b: bool): string {
    if b then "True" else "False"
  }

  /**
   * `generate_header_file` as written. The template is an f-string, so
   * `{is_stereo}` becomes the bool's own text. The `.format` call after it
   * finds no braces left and changes nothing.
   */
  function HeaderFileAsWritten(p: HeaderParams): string {
    Join(HeaderLines(PyBool(p.isStereo), p.audioWidth), '\n')
  }

  /**
   * `generate_header_file` as its `.format(is_stereo=int(is_stereo), ...)`
   * call intends: STEREO is 1 or 0.
   */
  function HeaderFile(p: HeaderParams): string {
    Join(HeaderLines(if p.isStereo then "1" else "0", p.audioWidth), '\n')
  }

  lemma {:induction false} HeaderLinesSplit(stereo: string, audioWidth: int)
    requires '\n' !in stereo
    ensures Split(Join(HeaderLines(stereo, audioWidth), '\n'), '\n') == HeaderLines(stereo, audioWidth)
  {
    NoNewlineInInt(audioWidth);
    FixedLinesHaveNoNewline();
    var ls := HeaderLines(stereo, audioWidth);
    assert forall k :: 0 <= k < |ls| ==> '\n' !in ls[k] by {
      forall k | 0 <= k < |ls|
        ensures '\n' !in ls[k]
      {
        if k < 5 {
          assert ls[k] == HeaderTop[k];
        } else if k >= 7 {
          assert ls[k] == HeaderBottom[k - 7];
        }
      }
    }
    SplitJoin(ls, '\n');
  }

  /**
   * The header has eleven lines. STEREO is 1 or 0 and AUDIO_WIDTH is the
   * audio width. BUFFER_DEPTH is always 4. Neither the channel count nor the
   * I2S width has any effect on the text.
   */
  lemma HeaderFileLines(p: HeaderParams, n: int, w: int)
    ensures var ls := Split(HeaderFile(p), '\n');
      && |ls| == 11
      && ls[5] == StereoLineStart + (if p.isStereo then "1" else "0") + ";"
      && ls[6] == AudioWidthLineStart + IntToString(p.audioWidth) + ";"
      && ls[7] == BufferDepthLine
      && HeaderFile(p) == HeaderFile(p.(nAudioChannels := n, i2sWidth := w))
  {
    HeaderLinesSplit(if p.isStereo then "1" else "0", p.audioWidth);
  }

  /**
   * As written, STEREO is set to `True` or `False`, not to a number, so the
   * text differs from the intended header for every input.
   */
  lemma StereoIsPythonBool(p: HeaderParams)
    ensures var ls := Split(HeaderFileAsWritten(p), '\n');
      && |ls| == 11
      && ls[5] == StereoLineStart + PyBool(p.isStereo) + ";"
      && HeaderFileAsWritten(p) != HeaderFile(p)
  {
    var good := if p.isStereo then "1" else "0";
    HeaderLinesSplit(PyBool(p.isStereo), p.audioWidth);
    HeaderLinesSplit(good, p.audioWidth);
    var bad := StereoLineStart + PyBool(p.isStereo) + ";";
    assert |bad| != |StereoLineStart + good + ";"|;
  }

  /**
   * `main`'s header text, as written: STEREO is `True` or `False`, so the
   * text is never the intended header.
   */
  method GenerateHeader(parsed: CliArgs) returns (header: string)
    ensures header == HeaderFileAsWritten(MainParams(parsed))
    ensures header != HeaderFile(MainParams(parsed))
  {
    var kw := MainKwargs(parsed);
    header := HeaderFileAsWritten(Bind(kw));
    StereoIsPythonBool(Bind(kw));
  }

  // ------------------------------------------------------------ receiver

  /** The receiver's registers. */
  datatype RxState = RxState(shiftReg: nat, bitCounter: nat, prevLrclk: bool, sampleReady: bool)

  /** The registers while `sys_rst` is high. */
  const RxReset: RxState := RxState(0, 0, false, false)

  /**
   * One rising edge of `i2s_bclk` with `sys_rst` low, for an `I2S_WIDTH`
   * of `w`. A change of the word-select level ends the word. Otherwise the
   * data bit is shifted into the `w`-bit register, except on the first edge
   * of a word, and the 5-bit counter counts up.
   */
  function RxStep(w: nat, s: RxState, e: BclkEdge): (r: RxState)
    requires w >= 2
    ensures r.bitCounter < 32 && r.prevLrclk == e.lrclk
    ensures s.shiftReg < Pow2(w) ==> r.shiftReg < Pow2(w)
  {
    if s.prevLrclk != e.lrclk then
      RxState(0, 0, e.lrclk, s.sampleReady || s.bitCounter == w - 1)
    else
      RxState(if s.bitCounter > 0 then (2 * s.shiftReg + Bit(e.data)) % Pow2(w) else s.shiftReg,
              (s.bitCounter + 1) % 32,
              e.lrclk,
              s.sampleReady && s.bitCounter <= 2)
  }

  /** The receiver after a run of bit-clock edges. */
  function RxRun(w: nat, s: RxState, es: seq<BclkEdge>): RxState
    requires w >= 2
  {
    if |es| == 0 then s else RxStep(w, RxRun(w, s, es[..|es| - 1]), es[|es| - 1])
  }

  /**
   * Within a word, the first edge is skipped and every later bit is
   * shifted in: after `bits`, the counter is |bits| and the register holds
   * all of `bits` but the first, truncated to `w` bits. The run starts just
   * after a change of the word-select level and is short enough that the
   * counter does not wrap.
   */
  lemma {:induction false} WordShiftsIn(w: nat, lr: bool, ready: bool, bits: seq<bool>)
    requires w >= 2 && |bits| < 32
    ensures var s := RxRun(w, RxState(0, 0, lr, ready), Word(lr, bits));
      && s.bitCounter == |bits| && s.prevLrclk == lr
      && s.shiftReg == (if |bits| == 0 then 0 else BitsValue(bits[1..]) % Pow2(w))
  {
    if |bits| > 0 {
      var init := bits[..|bits| - 1];
      var b := bits[|bits| - 1];
      WordSnoc(lr, bits);
      WordShiftsIn(w, lr, ready, init);
      ShiftInStep(w, RxRun(w, RxState(0, 0, lr, ready), Word(lr, init)), lr, init, b);
      FrontLast(bits);
    }
  }

  /** One more edge of the same word shifts its bit in, unless it is the word's first. */
  lemma ShiftInStep(w: nat, s: RxState, lr: bool, init: seq<bool>, b: bool)
    requires w >= 2 && |init| < 31
    requires s.prevLrclk == lr && s.bitCounter == |init|
    requires s.shiftReg == (if |init| == 0 then 0 else BitsValue(init[1..]) % Pow2(w))
    ensures var r := RxStep(w, s, BclkEdge(lr, b));
      && r.bitCounter == |init| + 1 && r.prevLrclk == lr
      && r.shiftReg == BitsValue((init + [b])[1..]) % Pow2(w)
  {
    ModUnique(|init| + 1, 32, 0, |init| + 1);
    var r := RxStep(w, s, BclkEdge(lr, b));
    if |init| > 0 {
      ShiftInValue(init, b, Pow2(w), s.shiftReg);
      assert r.shiftReg == (2 * s.shiftReg + Bit(b)) % Pow2(w);
    } else {
      assert (init + [b])[1..] == [];
      assert r.shiftReg == 0;
      assert BitsValue((init + [b])[1..]) == 0;
      assert 0 % Pow2(w) == 0;
    }
  }

  /**
   * A change of the word-select level clears the shift register, so the
   * word just received is no longer in it. On that same edge the ready flag
   * rises exactly when the word it ends had `w` edges, counting the skipped
   * first one (short of a counter wrap). A flag raised by the previous word
   * change may still be up if this word was shorter than four edges.
   */
  lemma WordEnd(w: nat, lr: bool, ready: bool, bits: seq<bool>, d: bool)
    requires w >= 2 && |bits| < 32
    ensures var s := RxStep(w, RxRun(w, RxState(0, 0, lr, ready), Word(lr, bits)), BclkEdge(!lr, d));
      && s.shiftReg == 0 && s.bitCounter == 0 && s.prevLrclk == !lr
      && (s.sampleReady <==> (ready && |bits| < 4) || |bits| == w - 1)
  {
    WordShiftsIn(w, lr, ready, bits);
    ReadyDuringWord(w, lr, ready, bits);
  }

  /**
   * Within a word the ready flag never rises. A flag that was up stays up
   * for the first three edges and falls on the fourth, once the counter has
   * passed 2.
   */
  lemma {:induction false} ReadyDuringWord(w: nat, lr: bool, ready: bool, bits: seq<bool>)
    requires w >= 2 && |bits| < 32
    ensures RxRun(w, RxState(0, 0, lr, ready), Word(lr, bits)).sampleReady <==> ready && |bits| < 4
  {
    if |bits| > 0 {
      var init := bits[..|bits| - 1];
      WordSnoc(lr, bits);
      ReadyDuringWord(w, lr, ready, init);
      WordShiftsIn(w, lr, ready, init);
    }
  }

  /**
   * With an `I2S_WIDTH` above 32 the 5-bit counter can never equal
   * `I2S_WIDTH - 1`, so after reset the ready flag never rises.
   */
  lemma {:induction false} WideWordsNeverReady(w: nat, es: seq<BclkEdge>)
    requires w > 32
    ensures !RxRun(w, RxReset, es).sampleReady
  {
    if |es| > 0 {
      WideWordsNeverReady(w, es[..|es| - 1]);
      RxBounds(w, es[..|es| - 1]);
    }
  }

  /** From reset, the counter stays below 32 and the register within `w` bits. */
  lemma {:induction false} RxBounds(w: nat, es: seq<BclkEdge>)
    requires w >= 2
    ensures RxRun(w, RxReset, es).bitCounter < 32 && RxRun(w, RxReset, es).shiftReg < Pow2(w)
  {
    if |es| > 0 {
      RxBounds(w, es[..|es| - 1]);
    }
  }

  /** The receiver `always_ff` block of `buf_audio_in`. */
  class I2sReceiver {
    const i2sWidth: nat
    var shiftReg: nat
    var bitCounter: nat
    var prevLrclk: bool
    var sampleReadyI2s: bool

    function State(): RxState
      reads this
    {
      RxState(shiftReg, bitCounter, prevLrclk, sampleReadyI2s)
    }

    /** The register widths: `I2S_WIDTH` bits of data and a 5-bit counter. */
    predicate Valid()
      reads this
    {
      i2sWidth >= 2 && shiftReg < Pow2(i2sWidth) && bitCounter < 32
    }

    /** The receiver with `I2S_WIDTH = width`, held in reset. */
    constructor (width: nat)
      requires width >= 2
      ensures Valid() && i2sWidth == width && State() == RxReset
    {
      i2sWidth := width;
      shiftReg := 0;
      bitCounter := 0;
      prevLrclk := false;
      sampleReadyI2s := false;
    }

    /** A rising edge of `sys_rst`. */
    method Reset()
      requires i2sWidth >= 2
      modifies this
      ensures Valid() && State() == RxReset
    {
      shiftReg := 0;
      bitCounter := 0;
      prevLrclk := false;
      sampleReadyI2s := false;
    }

    /** A rising edge of `i2s_bclk` with `sys_rst` low. */
    method BitClock(lrclk: bool, data: bool)
      requires Valid()
      modifies this
      ensures Valid() && State() == RxStep(i2sWidth, old(State()), BclkEdge(lrclk, data))
    {
      var counter := bitCounter;
      if prevLrclk != lrclk {
        if counter == i2sWidth - 1 {
          sampleReadyI2s := true;
        }
        bitCounter := 0;
        shiftReg := 0;
      } else {
        if counter > 0 {
          shiftReg := (2 * shiftReg + Bit(data)) % Pow2(i2sWidth);
        }
        bitCounter := (counter + 1) % 32;
        if sampleReadyI2s && counter > 2 {
          sampleReadyI2s := false;
        }
      }
      prevLrclk := lrclk;
    }
  }

  // ------------------------------------------------------------ ring buffers

  /** `x % d` for `x < 2 * d`, without division. */
  function Wrap(x: nat, d: nat): nat {
    if x < d then x else x - d
  }

  /** Advancing the start of a window by one slot and shortening it by one keeps its end. */
  lemma WrapAdvance(start: nat, count: nat, d: nat)
    requires start < d && 1 <= count <= d
    ensures Wrap(Wrap(start + 1, d) + (count - 1), d) == Wrap(start + count, d)
  {
  }

  lemma ModIsWrap(x: nat, d: nat)
    requires 0 < d && x < 2 * d
    ensures x % d == Wrap(x, d)
  {
    if x >= d {
      ModUnique(x, d, 1, x - d);
    } else {
      ModUnique(x, d, 0, x);
    }
  }

  /**
   * The `count` entries of a circular buffer `row` starting at `start`,
   * oldest first.
   */
  function Window(row: seq<nat>, start: nat, count: nat): (w: seq<nat>)
    requires start < |row| && count <= |row|
    ensures |w| == count
  {
    seq(count, k requires 0 <= k < count => row[Wrap(start + k, |row|)])
  }

  /**
   * Storing at the slot after the last entry appends to the window; the
   * slot lies outside it, so no entry is overwritten.
   */
  lemma WindowPush(row: seq<nat>, row': seq<nat>, start: nat, count: nat, v: nat)
    requires start < |row| && count < |row| && |row'| == |row|
    requires forall j :: 0 <= j < |row| ==> row'[j] == if j == Wrap(start + count, |row|) then v else row[j]
    ensures Window(row', start, count + 1) == Window(row, start, count) + [v]
  {
    var d := |row|;
    var after := Window(row', start, count + 1);
    var before := Window(row, start, count) + [v];
    forall k | 0 <= k < count + 1
      ensures after[k] == before[k]
    {
      var j := Wrap(start + k, d);
      assert row'[j] == if j == Wrap(start + count, d) then v else row[j];
      if k < count {
        assert j != Wrap(start + count, d);
      }
    }
  }

  /** Advancing the start past the oldest entry removes it from the window. */
  lemma WindowPop(row: seq<nat>, start: nat, count: nat)
    requires start < |row| && 0 < count <= |row|
    ensures Window(row, Wrap(start + 1, |row|), count - 1) == Window(row, start, count)[1..]
  {
    var d := |row|;
    var after := Window(row, Wrap(start + 1, d), count - 1);
    var before := Window(row, start, count);
    forall k | 0 <= k < count - 1
      ensures after[k] == before[k + 1]
    {
      assert Wrap(Wrap(start + 1, d) + k, d) == Wrap(start + (k + 1), d);
    }
  }

  /**
   * The system-clock side of `buf_audio_in`: one circular buffer of
   * `bufferDepth` samples per channel, and its flags.
   */
  class BufAudioIn {
    const numChannels: nat
    const bufferDepth: nat
    const audioWidth: nat
    const audioBuffer: array2<nat>
    const writePtr: array<nat>
    const readPtr: array<nat>
    const bufferCount: array<nat>
    const channelBufferValid: array<bool>
    var sampleValid: bool
    var sampleReadySysPrev: bool
    var bufferReady: bool
    var bufferFull: bool

    /** One buffer row and one pointer, counter and flag per channel. */
    predicate Shape() {
      && bufferDepth >= 1
      && audioBuffer.Length0 == numChannels && audioBuffer.Length1 == bufferDepth
      && writePtr.Length == numChannels && readPtr.Length == numChannels
      && bufferCount.Length == numChannels && channelBufferValid.Length == numChannels
      && writePtr != readPtr && writePtr != bufferCount && readPtr != bufferCount
    }

    /**
     * Every channel's pointers lie below the depth and its count within
     * 0..depth. The write pointer is `count` slots past the read pointer.
     * The valid flag is set exactly when the count is positive.
     */
    predicate Valid()
      reads writePtr, readPtr, bufferCount, channelBufferValid
    {
      Shape() && forall i :: 0 <= i < numChannels ==> ChannelValid(i)
    }

    /** Channel `i`'s part of `Valid`. */
    predicate ChannelValid(i: nat)
      requires Shape() && i < numChannels
      reads writePtr, readPtr, bufferCount, channelBufferValid
    {
      && readPtr[i] < bufferDepth && bufferCount[i] <= bufferDepth
      && writePtr[i] == Wrap(readPtr[i] + bufferCount[i], bufferDepth)
      && channelBufferValid[i] == (bufferCount[i] > 0)
    }

    /** Channel `i`'s row of `audio_buffer`. */
    function Row(i: nat): (r: seq<nat>)
      requires i < audioBuffer.Length0
      reads audioBuffer
      ensures |r| == audioBuffer.Length1
      ensures forall j :: 0 <= j < audioBuffer.Length1 ==> r[j] == audioBuffer[i, j]
    {
      seq(audioBuffer.Length1, j requires 0 <= j < audioBuffer.Length1 reads audioBuffer => audioBuffer[i, j])
    }

    /** The samples channel `i` holds, oldest first. */
    function Fifo(i: nat): (q: seq<nat>)
      requires Valid() && i < numChannels
      reads audioBuffer, writePtr, readPtr, bufferCount, channelBufferValid
      ensures |q| == bufferCount[i] <= bufferDepth
    {
      assert ChannelValid(i);
      Window(Row(i), readPtr[i], bufferCount[i])
    }

    /** The buffers with `NUM_AUDIO_CHANNELS = n`, `BUFFER_DEPTH = depth` and `AUDIO_WIDTH = width`, in reset. */
    constructor (n: nat, depth: nat, width: nat)
      requires depth >= 1
      ensures Valid() && numChannels == n && bufferDepth == depth && audioWidth == width
      ensures forall i :: 0 <= i < n ==> Fifo(i) == []
      ensures !sampleValid && !sampleReadySysPrev && !bufferReady && !bufferFull
    {
      numChannels := n;
      bufferDepth := depth;
      audioWidth := width;
      audioBuffer := new nat[n, depth]((i, j) => 0);
      writePtr := new nat[n](i => 0);
      readPtr := new nat[n](i => 0);
      bufferCount := new nat[n](i => 0);
      channelBufferValid := new bool[n](i => false);
      sampleValid := false;
      sampleReadySysPrev := false;
      bufferReady := false;
      bufferFull := false;
    }

    /** The reset branch: every pointer, count, flag and buffer entry is zero. */
    method Reset()
      requires Shape()
      modifies this, audioBuffer, writePtr, readPtr, bufferCount, channelBufferValid
      ensures Valid()
      ensures forall i :: 0 <= i < numChannels ==> Fifo(i) == [] && readPtr[i] == 0 && writePtr[i] == 0
      ensures forall i, j :: 0 <= i < numChannels && 0 <= j < bufferDepth ==> audioBuffer[i, j] == 0
      ensures !sampleValid && !sampleReadySysPrev && !bufferReady && !bufferFull
    {
      for i := 0 to numChannels
        invariant forall k :: 0 <= k < i ==>
          writePtr[k] == 0 && readPtr[k] == 0 && bufferCount[k] == 0 && !channelBufferValid[k]
        invariant forall k, j :: 0 <= k < i && 0 <= j < bufferDepth ==> audioBuffer[k, j] == 0
      {
        writePtr[i] := 0;
        readPtr[i] := 0;
        bufferCount[i] := 0;
        channelBufferValid[i] := false;
        for j := 0 to bufferDepth
          invariant forall k :: 0 <= k < i + 1 ==>
            writePtr[k] == 0 && readPtr[k] == 0 && bufferCount[k] == 0 && !channelBufferValid[k]
          invariant forall k, j' :: 0 <= k < i && 0 <= j' < bufferDepth ==> audioBuffer[k, j'] == 0
          invariant forall j' :: 0 <= j' < j ==> audioBuffer[i, j'] == 0
        {
          audioBuffer[i, j] := 0;
        }
      }
      sampleValid := false;
      sampleReadySysPrev := false;
      bufferReady := false;
      bufferFull := false;
    }

    /**
     * The write half of the rising-edge branch. Every channel with room
     * stores `sample` at its write pointer. A full channel raises
     * `buffer_full` instead.
     */
    method WriteChannels(sample: nat)
      requires Valid()
      modifies this, audioBuffer, writePtr, bufferCount, channelBufferValid
      ensures Valid()
      ensures sampleValid == old(sampleValid) && sampleReadySysPrev == old(sampleReadySysPrev)
      ensures bufferReady == old(bufferReady)
      ensures bufferFull == (old(bufferFull) || exists i :: 0 <= i < numChannels && old(bufferCount[i]) == bufferDepth)
      ensures forall i, j :: 0 <= i < numChannels && 0 <= j < bufferDepth ==>
        audioBuffer[i, j] == if old(bufferCount[i]) < bufferDepth && j == old(writePtr[i]) then sample else old(audioBuffer[i, j])
      ensures forall i :: 0 <= i < numChannels ==>
        bufferCount[i] == if old(bufferCount[i]) < bufferDepth then old(bufferCount[i]) + 1 else old(bufferCount[i])
    {
      for i := 0 to numChannels
        invariant Valid()
        invariant sampleValid == old(sampleValid) && sampleReadySysPrev == old(sampleReadySysPrev)
        invariant bufferReady == old(bufferReady)
        invariant bufferFull == (old(bufferFull) || exists k :: 0 <= k < i && old(bufferCount[k]) == bufferDepth)
        invariant forall k :: 0 <= k < i ==>
          bufferCount[k] == if old(bufferCount[k]) < bufferDepth then old(bufferCount[k]) + 1 else old(bufferCount[k])
        invariant forall k :: i <= k < numChannels ==> bufferCount[k] == old(bufferCount[k]) && writePtr[k] == old(writePtr[k])
        invariant forall k, j :: 0 <= k < numChannels && 0 <= j < bufferDepth ==>
          audioBuffer[k, j] == if k < i && old(bufferCount[k]) < bufferDepth && j == old(writePtr[k]) then sample else old(audioBuffer[k, j])
      {
        WriteChannel(i, sample);
      }
    }

    /** One iteration of the write loop: channel `i` stores `sample` if it has room. */
    method WriteChannel(i: nat, sample: nat)
      requires Valid() && i < numChannels
      modifies this, audioBuffer, writePtr, bufferCount, channelBufferValid
      ensures Valid()
      ensures sampleValid == old(sampleValid) && sampleReadySysPrev == old(sampleReadySysPrev)
      ensures bufferReady == old(bufferReady)
      ensures bufferFull == (old(bufferFull) || old(bufferCount[i]) == bufferDepth)
      ensures bufferCount[i] == if old(bufferCount[i]) < bufferDepth then old(bufferCount[i]) + 1 else old(bufferCount[i])
      ensures forall k :: 0 <= k < numChannels && k != i ==>
        bufferCount[k] == old(bufferCount[k]) && writePtr[k] == old(writePtr[k])
      ensures forall k, j :: 0 <= k < numChannels && 0 <= j < bufferDepth ==>
        audioBuffer[k, j] == if k == i && old(bufferCount[i]) < bufferDepth && j == old(writePtr[i]) then sample else old(audioBuffer[k, j])
    {
      assert ChannelValid(i);
      if bufferCount[i] < bufferDepth {
        var wp := writePtr[i];
        audioBuffer[i, wp] := sample;
        ModIsWrap(wp + 1, bufferDepth);
        writePtr[i] := (wp + 1) % bufferDepth;
        bufferCount[i] := bufferCount[i] + 1;
        channelBufferValid[i] := true;
      } else {
        bufferFull := true;
      }
      forall k | 0 <= k < numChannels && k != i
        ensures ChannelValid(k)
      {
        assert old(ChannelValid(k));
      }
      assert ChannelValid(i);
    }

    /**
     * The `always_ff` block that writes the buffers, with `sys_rst` low. On
     * a rising edge of `sample_ready_sys`, every channel with room appends
     * the low `AUDIO_WIDTH` bits of `shift_reg` and `sample_valid` rises.
     * A full channel raises `buffer_full` instead. Without an edge, both
     * flags fall. `buffer_ready` takes the AND of the valid flags from
     * before the edge.
     */
    method WriteStep(sampleReadySys: bool, shiftReg: nat)
      requires Valid()
      modifies this, audioBuffer, writePtr, bufferCount, channelBufferValid
      ensures Valid()
      ensures sampleValid == (sampleReadySys && !old(sampleReadySysPrev))
      ensures sampleReadySysPrev == sampleReadySys
      ensures bufferReady == (forall i :: 0 <= i < numChannels ==> old(channelBufferValid[i]))
      ensures bufferFull == (sampleReadySys && !old(sampleReadySysPrev)
                             && (old(bufferFull) || exists i :: 0 <= i < numChannels && old(bufferCount[i]) == bufferDepth))
      ensures forall i :: 0 <= i < numChannels ==>
        Fifo(i) == if sampleReadySys && !old(sampleReadySysPrev) && |old(Fifo(i))| < bufferDepth
                   then old(Fifo(i)) + [shiftReg % Pow2(audioWidth)] else old(Fifo(i))
    {
      var edge := sampleReadySys && !sampleReadySysPrev;
      var allValid := forall i :: 0 <= i < numChannels ==> channelBufferValid[i];
      var sample := shiftReg % Pow2(audioWidth);
      if edge {
        WriteChannels(sample);
        forall i | 0 <= i < numChannels
          ensures Fifo(i) == if old(bufferCount[i]) < bufferDepth then old(Fifo(i)) + [sample] else old(Fifo(i))
        {
          assert old(ChannelValid(i)) && ChannelValid(i);
          var row := old(Row(i));
          var row' := Row(i);
          if old(bufferCount[i]) < bufferDepth {
            forall j | 0 <= j < bufferDepth
              ensures row'[j] == if j == Wrap(readPtr[i] + old(bufferCount[i]), bufferDepth) then sample else row[j]
            {
              assert row'[j] == audioBuffer[i, j];
            }
            WindowPush(row, row', readPtr[i], old(bufferCount[i]), sample);
          } else {
            assert row' == row;
          }
        }
        sampleValid := true;
      } else {
        sampleValid := false;
        bufferFull := false;
      }
      sampleReadySysPrev := sampleReadySys;
      bufferReady := allValid;
    }

    /**
     * The read `always_ff` block with `sys_rst` low. While `buffer_ready` is
     * set, every non-empty channel drops its oldest sample: its read pointer
     * advances and its count falls. Its valid flag clears when the count
     * was 1.
     */
    method ReadStep()
      requires Valid()
      modifies readPtr, bufferCount, channelBufferValid
      ensures Valid()
      ensures forall i :: 0 <= i < numChannels ==>
        Fifo(i) == if bufferReady && |old(Fifo(i))| > 0 then old(Fifo(i))[1..] else old(Fifo(i))
      ensures forall i :: 0 <= i < numChannels ==>
        readPtr[i] == if bufferReady && old(bufferCount[i]) > 0 then Wrap(old(readPtr[i]) + 1, bufferDepth) else old(readPtr[i])
    {
      if bufferReady {
        for i := 0 to numChannels
          invariant Valid()
          invariant forall k :: 0 <= k < i ==>
            && readPtr[k] == (if old(bufferCount[k]) > 0 then Wrap(old(readPtr[k]) + 1, bufferDepth) else old(readPtr[k]))
            && bufferCount[k] == (if old(bufferCount[k]) > 0 then old(bufferCount[k]) - 1 else 0)
          invariant forall k :: i <= k < numChannels ==> readPtr[k] == old(readPtr[k]) && bufferCount[k] == old(bufferCount[k])
        {
          ReadChannel(i);
        }
        forall i | 0 <= i < numChannels
          ensures Fifo(i) == if |old(Fifo(i))| > 0 then old(Fifo(i))[1..] else old(Fifo(i))
        {
          assert Row(i) == old(Row(i));
          assert old(ChannelValid(i));
          if old(bufferCount[i]) > 0 {
            WindowPop(Row(i), old(readPtr[i]), old(bufferCount[i]));
          }
        }
      }
    }

    /** One iteration of the read loop: a non-empty channel `i` drops its oldest sample. */
    method ReadChannel(i: nat)
      requires Valid() && i < numChannels
      modifies readPtr, bufferCount, channelBufferValid
      ensures Valid()
      ensures readPtr[i] == if old(bufferCount[i]) > 0 then Wrap(old(readPtr[i]) + 1, bufferDepth) else old(readPtr[i])
      ensures bufferCount[i] == if old(bufferCount[i]) > 0 then old(bufferCount[i]) - 1 else 0
      ensures forall k :: 0 <= k < numChannels && k != i ==> readPtr[k] == old(readPtr[k]) && bufferCount[k] == old(bufferCount[k])
    {
      assert ChannelValid(i);
      if bufferCount[i] > 0 {
        var count := bufferCount[i];
        var rp := readPtr[i];
        ModIsWrap(rp + 1, bufferDepth);
        readPtr[i] := (rp + 1) % bufferDepth;
        bufferCount[i] := count - 1;
        if count == 1 {
          channelBufferValid[i] := false;
        }
        WrapAdvance(rp, count, bufferDepth);
      }
      forall k | 0 <= k < numChannels && k != i
        ensures ChannelValid(k)
      {
        assert old(ChannelValid(k));
      }
      assert ChannelValid(i);
    }

    /**
     * The combinational outputs. A channel shows its oldest sample, or zero
     * when it is empty.
     */
    method AudioChannelOut() returns (out: seq<nat>)
      requires Valid()
      ensures |out| == numChannels
      ensures forall i :: 0 <= i < numChannels ==> out[i] == if |Fifo(i)| > 0 then Fifo(i)[0] else 0
    {
      out := [];
      for i := 0 to numChannels
        invariant |out| == i
        invariant forall k :: 0 <= k < i ==> out[k] == if |Fifo(k)| > 0 then Fifo(k)[0] else 0
      {
        assert ChannelValid(i);
        if channelBufferValid[i] && bufferCount[i] > 0 {
          out := out + [audioBuffer[i, readPtr[i]]];
        } else {
          out := out + [0];
        }
        if bufferCount[i] > 0 {
          assert Fifo(i)[0] == Row(i)[Wrap(readPtr[i] + 0, bufferDepth)];
        }
      }
    }
  }
}
