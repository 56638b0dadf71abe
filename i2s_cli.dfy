/**
 * The command line that both copies of i2s_mono_stereo_wrapper.py share.
 * `main` makes the two bit widths agree unless `-f` is given. It then
 * passes the options that were given on to `generate_header_file`, under
 * that function's parameter names; the function supplies its own defaults
 * for the rest.
 */
module I2sCli {
  import opened Common

  /**
   * The parsed options. An option left off the command line is `None`;
   * `-f` defaults to false.
   */
  datatype CliArgs = CliArgs(s: Option<bool>, n: Option<int>, aw: Option<int>, i2sw: Option<int>, f: bool)

  /** A value held by `args` or passed as a keyword argument. */
  datatype ArgValue = BoolArg(b: bool) | IntArg(i: int)

  /** The parameters `generate_header_file` is called with, after its defaults apply. */
  datatype HeaderParams = HeaderParams(isStereo: bool, nAudioChannels: int, audioWidth: int, i2sWidth: int)

  /**
   * `args` after `main`'s update. Without `-f`, `aw` is overwritten with
   * `i2sw` whenever they differ, including when one of them was not given.
   * With `-f` the widths are kept. Nothing else changes.
   */
  function Reconciled(a: CliArgs): (r: CliArgs)
    ensures r.s == a.s && r.n == a.n && r.i2sw == a.i2sw && r.f == a.f
    ensures !a.f ==> r.aw == a.i2sw
    ensures a.f ==> r.aw == a.aw
  {
    if a.i2sw != a.aw && !a.f then a.(aw := a.i2sw) else a
  }

  /** `vars(parser.parse_args())`: the option names and their values. */
  function ArgsDict(a: CliArgs): map<string, Option<ArgValue>> {
    map[
      "s" := (if a.s.Some? then Some(BoolArg(a.s.value)) else None),
      "n" := (if a.n.Some? then Some(IntArg(a.n.value)) else None),
      "aw" := (if a.aw.Some? then Some(IntArg(a.aw.value)) else None),
      "i2sw" := (if a.i2sw.Some? then Some(IntArg(a.i2sw.value)) else None),
      "f" := Some(BoolArg(a.f))
    ]
  }

  /** `header_args`: option name to parameter name. */
  const HeaderArgs: map<string, string> :=
    map["s" := "is_stereo", "n" := "n_audio_channels", "aw" := "audio_width", "i2sw" := "i2s_width"]

  /**
   * The keyword arguments `main` builds: every option of `HeaderArgs` that
   * has a value, renamed.
   */
  function Forwarded(args: map<string, Option<ArgValue>>): map<string, ArgValue> {
    map k | k in args && args[k].Some? && k in HeaderArgs :: HeaderArgs[k] := args[k].value
  }

  /** Distinct options have distinct parameter names. */
  lemma HeaderArgsInjective(o1: string, o2: string)
    requires o1 in HeaderArgs && o2 in HeaderArgs && HeaderArgs[o1] == HeaderArgs[o2]
    ensures o1 == o2
  {
  }

  /**
   * The parameter named after option `o` is passed exactly when `o` has a
   * value, and it carries that value.
   */
  lemma ForwardedKey(args: map<string, Option<ArgValue>>, o: string)
    requires o in HeaderArgs
    ensures var kw := Forwarded(args);
      && (HeaderArgs[o] in kw <==> o in args && args[o].Some?)
      && (HeaderArgs[o] in kw ==> kw[HeaderArgs[o]] == args[o].value)
  {
    var kw := Forwarded(args);
    if HeaderArgs[o] in kw {
      var o2 :| o2 in args && args[o2].Some? && o2 in HeaderArgs && HeaderArgs[o2] == HeaderArgs[o];
      HeaderArgsInjective(o, o2);
    }
  }

  /** Only parameter names are passed; `-f` never is. */
  lemma ForwardedNames(args: map<string, Option<ArgValue>>)
    ensures Forwarded(args).Keys <= {"is_stereo", "n_audio_channels", "audio_width", "i2s_width"}
  {
    forall k | k in Forwarded(args)
      ensures k in {"is_stereo", "n_audio_channels", "audio_width", "i2s_width"}
    {
      var o :| o in args && args[o].Some? && o in HeaderArgs && HeaderArgs[o] == k;
    }
  }

  /**
   * Exactly the options that were given are forwarded, each under its new
   * name.
   */
  lemma ForwardedOptions(a: CliArgs)
    ensures var kw := Forwarded(ArgsDict(a));
      && kw.Keys <= {"is_stereo", "n_audio_channels", "audio_width", "i2s_width"}
      && ("is_stereo" in kw <==> a.s.Some?) && (a.s.Some? ==> kw["is_stereo"] == BoolArg(a.s.value))
      && ("n_audio_channels" in kw <==> a.n.Some?) && (a.n.Some? ==> kw["n_audio_channels"] == IntArg(a.n.value))
      && ("audio_width" in kw <==> a.aw.Some?) && (a.aw.Some? ==> kw["audio_width"] == IntArg(a.aw.value))
      && ("i2s_width" in kw <==> a.i2sw.Some?) && (a.i2sw.Some? ==> kw["i2s_width"] == IntArg(a.i2sw.value))
  {
    var args := ArgsDict(a);
    ForwardedNames(args);
    ForwardedKey(args, "s");
    ForwardedKey(args, "n");
    ForwardedKey(args, "aw");
    ForwardedKey(args, "i2sw");
  }

  /** Updating the dictionary is updating the options it was built from. */
  lemma ArgsDictUpdate(a: CliArgs)
    ensures var d := ArgsDict(a);
      && (d["i2sw"] != d["aw"] <==> a.i2sw != a.aw)
      && d["aw" := d["i2sw"]] == ArgsDict(a.(aw := a.i2sw))
  {
    var d := ArgsDict(a);
    var e := ArgsDict(a.(aw := a.i2sw));
    assert d["aw" := d["i2sw"]].Keys == e.Keys;
    if a.i2sw != a.aw {
      if a.i2sw.Some? && a.aw.Some? {
        assert IntArg(a.i2sw.value) != IntArg(a.aw.value);
      }
    }
  }

  /**
   * `main`'s own steps: the in-place update of `args['aw']`, then the
   * comprehension that builds the keyword arguments.
   */
  method MainKwargs(parsed: CliArgs) returns (kw: map<string, ArgValue>)
    ensures kw == Forwarded(ArgsDict(Reconciled(parsed)))
  {
    var args := ArgsDict(parsed);
    ArgsDictUpdate(parsed);
    if args["i2sw"] != args["aw"] && !parsed.f {
      args := args["aw" := args["i2sw"]];
    }
    kw := Forwarded(args);
  }

  /** A keyword argument's boolean, or the parameter's default. */
  function BoolParam(kw: map<string, ArgValue>, name: string, default: bool): bool {
    if name in kw && kw[name].BoolArg? then kw[name].b else default
  }

  /** A keyword argument's integer, or the parameter's default. */
  function IntParam(kw: map<string, ArgValue>, name: string, default: int): int {
    if name in kw && kw[name].IntArg? then kw[name].i else default
  }

  /**
   * Calling `generate_header_file(**kw)`: is_stereo defaults to True,
   * n_audio_channels to 4, and both widths to 24.
   */
  function Bind(kw: map<string, ArgValue>): HeaderParams {
    HeaderParams(BoolParam(kw, "is_stereo", true), IntParam(kw, "n_audio_channels", 4),
                 IntParam(kw, "audio_width", 24), IntParam(kw, "i2s_width", 24))
  }

  /** The parameters `main` passes to `generate_header_file`. */
  function MainParams(a: CliArgs): HeaderParams {
    Bind(Forwarded(ArgsDict(Reconciled(a))))
  }

  /**
   * Each parameter is the option's value when given and the default
   * otherwise. Without `-f` the audio width always equals the I2S width;
   * with `-f` the audio width is the one given.
   */
  lemma MainParamsMeaning(a: CliArgs)
    ensures var p := MainParams(a);
      && p.isStereo == (if a.s.Some? then a.s.value else true)
      && p.nAudioChannels == (if a.n.Some? then a.n.value else 4)
      && p.i2sWidth == (if a.i2sw.Some? then a.i2sw.value else 24)
      && (!a.f ==> p.audioWidth == p.i2sWidth)
      && (a.f ==> p.audioWidth == (if a.aw.Some? then a.aw.value else 24))
  {
    ForwardedOptions(Reconciled(a));
  }

  /**
   * Without `-f`, an audio width given without an I2S width is dropped: the
   * header gets the default 24.
   */
  lemma AudioWidthAloneIsDropped(aw: int)
    ensures MainParams(CliArgs(None, None, Some(aw), None, false)).audioWidth == 24
  {
    MainParamsMeaning(CliArgs(None, None, Some(aw), None, false));
  }
}
