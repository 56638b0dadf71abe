/**
 * Src/RTL/In/i2s_mono_stereo_wrapper.py. It writes an audio-definitions
 * header of four `define lines plus a channel-register macro, and the
 * `audio_processor` module. The module has a 24-bit I2S receiver, a
 * two-stage synchroniser into the system clock domain, and a
 * `sample_valid` pulse on each rising edge of the synchronised ready flag.
 *
 * Each always block becomes a method. It reads every register's value from
 * before the clock edge, as non-blocking assignments do. The two clocks'
 * edges are modelled as one interleaved sequence of events.
 */
module RtlInI2s {
  import opened Common
  import opened I2sCli
  import opened I2sSerial

  // ------------------------------------------------------------ header

  /** The header's lines, with the four values put in place. */
  function HeaderLines(p: HeaderParams): seq<string> {
    DefineLines(p) + HeaderBottom
  }

  const HeaderTop: seq<string> := ["`ifndef AUDIO_DEFS_VH", "    `define AUDIO_DEFS_VH", ""]

  /** The channel-register macro and the closing `endif`, as the template has them. */
  const HeaderBottom: seq<string> := [
    "",
    "    // Generate I2S channel registers",
    "    `define GENERATE_I2S_CHANNEL_REGS() \\",
    "        generate \\",
    "            genvar i; \\",
    "            for (i = 1; i <= `NUM_AUDIO_CHANNELS; i = i + 1) begin : audio_regs \\",
    "                `ifdef STEREO \\",
    "                    `if STEREO \\",
    "                        output reg [`AUDIO_WIDTH-1:0] audio_left_``i; \\",
    "                        output reg [`AUDIO_WIDTH-1:0] audio_right_``i; \\",
    "                    `else \\",
    "                        output reg [`AUDIO_WIDTH-1:0] audio_mono_``i; \\",
    "                    `endif \\",
    "                `endif \\",
    "            end \\",
    "        endgenerate \\",
    "",
    "`endif // AUDIO_DEFS_VH",
    "    "]

  /**
   * `generate_header_file`: `.format` puts `int(is_stereo)`, the channel
   * count and both widths into the template.
   */
  function HeaderFile(p: HeaderParams): string {
    Join(HeaderLines(p), '\n')
  }

  lemma TopHasNoNewline()
    ensures forall k :: 0 <= k < |HeaderTop| ==> '\n' !in HeaderTop[k]
  {
  }

  /** The lines up to the last `define: the fixed opening lines and the four definitions. */
  function DefineLines(p: HeaderParams): seq<string> {
    HeaderTop
      + [ "    `define STEREO " + (if p.isStereo then "1" else "0"),
          "    `define NUM_AUDIO_CHANNELS " + IntToString(p.nAudioChannels),
          "    `define AUDIO_WIDTH " + IntToString(p.audioWidth),
          "    `define I2S_WIDTH " + IntToString(p.i2sWidth) ]
  }

  lemma {:induction false} DefineLinesHaveNoNewline(p: HeaderParams)
    ensures forall k :: 0 <= k < |DefineLines(p)| ==> '\n' !in DefineLines(p)[k]
  {
    TopHasNoNewline();
    NoNewlineInInt(p.nAudioChannels);
    NoNewlineInInt(p.audioWidth);
    NoNewlineInInt(p.i2sWidth);
    var ls := DefineLines(p);
    forall k | 0 <= k < |ls|
      ensures '\n' !in ls[k]
    {
      if k < 3 {
        assert ls[k] == HeaderTop[k];
      }
    }
  }

  /**
   * Lines 3 to 6 of the header define STEREO as 1 or 0, and the channel
   * count, audio width and I2S width as given; the macro and `endif` follow.
   */
  lemma HeaderFileLines(p: HeaderParams)
    ensures var ls := Split(HeaderFile(p), '\n');
      && |ls| > 7
      && ls[..3] == HeaderTop
      && ls[3] == "    `define STEREO " + (if p.isStereo then "1" else "0")
      && ls[4] == "    `define NUM_AUDIO_CHANNELS " + IntToString(p.nAudioChannels)
      && ls[5] == "    `define AUDIO_WIDTH " + IntToString(p.audioWidth)
      && ls[6] == "    `define I2S_WIDTH " + IntToString(p.i2sWidth)
      && ls[7] == ""
  {
    DefineLinesHaveNoNewline(p);
    SplitBeforeBlank(DefineLines(p), HeaderBottom);
  }

  /** Lines without a newline, then a blank line, come back first when the joined text is split. */
  lemma SplitBeforeBlank(top: seq<string>, bottom: seq<string>)
    requires |top| >= 1 && |bottom| >= 2 && bottom[0] == ""
    requires forall k :: 0 <= k < |top| ==> '\n' !in top[k]
    ensures var ls := Split(Join(top + bottom, '\n'), '\n');
      |ls| > |top| && ls[..|top|] == top && ls[|top|] == ""
  {
    JoinConcat(top, bottom, '\n');
    SplitJoinPrefix(top, Join(bottom, '\n'), '\n');
    assert Join(bottom, '\n') == "" + ['\n'] + Join(bottom[1..], '\n');
    SplitPrefix("", Join(bottom[1..], '\n'), '\n');
  }

  /** `main`'s header text. */
  method GenerateHeader(parsed: CliArgs) returns (header: string)
    ensures header == HeaderFile(MainParams(parsed))
  {
    var kw := MainKwargs(parsed);
    header := HeaderFile(Bind(kw));
  }

  // ------------------------------------------------------------ audio_processor

  /**
   * One more than the largest value of the 24-bit shift register. The
   * template resets it with `24'b0` and shifts `shift_reg[22:0]`.
   */
  const Modulus: nat := 0x100_0000

  /** The registers of `audio_processor`. */
  datatype ApState = ApState(
    shiftReg: nat, bitCounter: nat, prevLrclk: bool, sampleReadyI2s: bool,
    sampleReadySysMeta: bool, sampleReadySys: bool, sampleReadySysPrev: bool, sampleValid: bool)

  /** The registers while `sys_rst` is high. */
  const ApReset: ApState := ApState(0, 0, false, false, false, false, false, false)

  /** A rising edge of the bit clock or of the system clock. */
  datatype ApEvent = Bclk(edge: BclkEdge) | SysClk

  /**
   * One rising edge with `sys_rst` low. On the bit clock, a change of the
   * word-select level clears the counter and the register. Otherwise the
   * data bit is shifted in, except on a word's first edge. The counter
   * counts up to 24 and stays there. The ready flag falls once the counter
   * has passed 2. On the system clock, the ready flag moves one stage along
   * the synchroniser, and `sample_valid` is set on its rising edge.
   */
  function ApStep(s: ApState, e: ApEvent): (r: ApState)
    ensures s.bitCounter <= 24 ==> r.bitCounter <= 24
    ensures s.shiftReg < Modulus ==> r.shiftReg < Modulus
  {
    match e
    case Bclk(BclkEdge(lrclk, data)) =>
      if s.prevLrclk != lrclk then
        s.(shiftReg := 0, bitCounter := 0, prevLrclk := lrclk)
      else
        s.(shiftReg := if s.bitCounter > 0 then (2 * s.shiftReg + Bit(data)) % Modulus else s.shiftReg,
           bitCounter := if s.bitCounter < 24 then s.bitCounter + 1 else s.bitCounter,
           prevLrclk := lrclk,
           sampleReadyI2s := s.sampleReadyI2s && s.bitCounter <= 2)
    case SysClk =>
      s.(sampleReadySysMeta := s.sampleReadyI2s,
         sampleReadySys := s.sampleReadySysMeta,
         sampleReadySysPrev := s.sampleReadySys,
         sampleValid := s.sampleReadySys && !s.sampleReadySysPrev)
  }

  /** The registers after a run of events. */
  function ApRun(s: ApState, es: seq<ApEvent>): ApState {
    if |es| == 0 then s else ApStep(ApRun(s, es[..|es| - 1]), es[|es| - 1])
  }

  /** The ready flag is down and so is every stage that copies it. */
  predicate Quiet(s: ApState) {
    !s.sampleReadyI2s && !s.sampleReadySysMeta && !s.sampleReadySys && !s.sampleValid
  }

  /**
   * Nothing ever sets the ready flag, so once the registers are quiet no
   * event raises any of them.
   */
  lemma QuietStep(s: ApState, e: ApEvent)
    requires Quiet(s)
    ensures Quiet(ApStep(s, e))
  {
  }

  /**
   * After reset, whatever the two clocks do, `sample_valid` never pulses:
   * the ready flag is only ever cleared, so the synchroniser only ever
   * carries zeros.
   */
  lemma {:induction false} SampleValidNeverPulses(es: seq<ApEvent>)
    ensures Quiet(ApRun(ApReset, es)) && !ApRun(ApReset, es).sampleValid
  {
    if |es| > 0 {
      SampleValidNeverPulses(es[..|es| - 1]);
      QuietStep(ApRun(ApReset, es[..|es| - 1]), es[|es| - 1]);
    }
  }

  /** The bit-clock events of one word. */
  function WordEvents(lr: bool, bits: seq<bool>): (es: seq<ApEvent>)
    ensures |es| == |bits|
  {
    seq(|bits|, k requires 0 <= k < |bits| => Bclk(BclkEdge(lr, bits[k])))
  }

  lemma WordEventsSnoc(lr: bool, bits: seq<bool>)
    requires |bits| > 0
    ensures WordEvents(lr, bits)[..|bits| - 1] == WordEvents(lr, bits[..|bits| - 1])
    ensures WordEvents(lr, bits)[|bits| - 1] == Bclk(BclkEdge(lr, bits[|bits| - 1]))
  {
  }

  function Min(a: nat, b: nat): nat {
    if a < b then a else b
  }

  /** One more edge of the same word: the counter saturates, the bit is shifted in unless it is the first. */
  lemma ShiftInStep(s: ApState, lr: bool, init: seq<bool>, b: bool)
    requires s.prevLrclk == lr && s.bitCounter == Min(|init|, 24)
    requires s.shiftReg == (if |init| == 0 then 0 else BitsValue(init[1..]) % Modulus)
    ensures var r := ApStep(s, Bclk(BclkEdge(lr, b)));
      && r.bitCounter == Min(|init| + 1, 24) && r.prevLrclk == lr
      && r.shiftReg == BitsValue((init + [b])[1..]) % Modulus
  {
    if |init| > 0 {
      ShiftInValue(init, b, Modulus, s.shiftReg);
    } else {
      assert (init + [b])[1..] == [];
    }
  }

  /**
   * Within a word, the first edge is skipped and every later bit is
   * shifted in, however long the word: the register holds the last 24 bits
   * after the first, and the counter is the number of edges, capped at 24.
   */
  lemma {:induction false} WordShiftsIn(s: ApState, lr: bool, bits: seq<bool>)
    requires s.shiftReg == 0 && s.bitCounter == 0 && s.prevLrclk == lr
    ensures var r := ApRun(s, WordEvents(lr, bits));
      && r.bitCounter == Min(|bits|, 24) && r.prevLrclk == lr
      && r.shiftReg == (if |bits| == 0 then 0 else BitsValue(bits[1..]) % Modulus)
  {
    if |bits| > 0 {
      var init := bits[..|bits| - 1];
      var b := bits[|bits| - 1];
      WordEventsSnoc(lr, bits);
      WordShiftsIn(s, lr, init);
      ShiftInStep(ApRun(s, WordEvents(lr, init)), lr, init, b);
      FrontLast(bits);
    }
  }

  /** The `audio_processor` registers and its three always blocks. */
  class AudioProcessor {
    var shiftReg: nat
    var bitCounter: nat
    var prevLrclk: bool
    var sampleReadyI2s: bool
    var sampleReadySysMeta: bool
    var sampleReadySys: bool
    var sampleReadySysPrev: bool
    var sampleValid: bool

    function State(): ApState
      reads this
    {
      ApState(shiftReg, bitCounter, prevLrclk, sampleReadyI2s,
              sampleReadySysMeta, sampleReadySys, sampleReadySysPrev, sampleValid)
    }

    /** The 24-bit register and the counter, which never passes 24. */
    predicate Valid()
      reads this
    {
      shiftReg < Modulus && bitCounter <= 24
    }

    /** The module held in reset. */
    constructor ()
      ensures Valid() && State() == ApReset
    {
      shiftReg := 0;
      bitCounter := 0;
      prevLrclk := false;
      sampleReadyI2s := false;
      sampleReadySysMeta := false;
      sampleReadySys := false;
      sampleReadySysPrev := false;
      sampleValid := false;
    }

    /** A rising edge of `sys_rst`: the reset branches of all three blocks. */
    method Reset()
      modifies this
      ensures Valid() && State() == ApReset
    {
      shiftReg := 0;
      bitCounter := 0;
      prevLrclk := false;
      sampleReadyI2s := false;
      sampleReadySysMeta := false;
      sampleReadySys := false;
      sampleReadySysPrev := false;
      sampleValid := false;
    }

    /** The receiver block on a rising edge of `i2s_bclk` with `sys_rst` low. */
    method BitClock(lrclk: bool, data: bool)
      requires Valid()
      modifies this
      ensures Valid() && State() == ApStep(old(State()), Bclk(BclkEdge(lrclk, data)))
    {
      var counter := bitCounter;
      if prevLrclk != lrclk {
        bitCounter := 0;
        shiftReg := 0;
      } else {
        if counter > 0 {
          shiftReg := (2 * shiftReg + Bit(data)) % Modulus;
        }
        if counter < 24 {
          bitCounter := counter + 1;
        }
        if sampleReadyI2s && counter > 2 {
          sampleReadyI2s := false;
        }
      }
      prevLrclk := lrclk;
    }

    /** The synchroniser and the distribution block on a rising edge of `sys_clk` with `sys_rst` low. */
    method SysClock()
      requires Valid()
      modifies this
      ensures Valid() && State() == ApStep(old(State()), SysClk)
    {
      var ready, meta, sys, prev := sampleReadyI2s, sampleReadySysMeta, sampleReadySys, sampleReadySysPrev;
      sampleReadySysMeta := ready;
      sampleReadySys := meta;
      if sys && !prev {
        sampleValid := true;
      } else {
        sampleValid := false;
      }
      sampleReadySysPrev := sys;
    }
  }
}
