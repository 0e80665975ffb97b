/**
 * compileAttr: turning the -attr arguments into key/value pattern pairs. Each
 * argument is split on "="; anything but exactly two pieces aborts the run
 * (log.Fatalf), and a piece that does not compile ends the conversion with an
 * error. regexp.Compile is a parameter of the model.
 */
module Config {
  import opened Wrappers
  import opened Regex
  import opened GoStrings

  /** Why an -attr argument was refused; `key` is the text before the "=". */
  datatype AttrError =
    | SplitFailed(arg: string)
    | KeyError(key: string, msg: string)
    | ValueError(key: string, msg: string)

  /** The outcome for one -attr argument. */
  function CompileEntry(x: string, compile: string -> Result<Regexp, string>): (r: Result<AttrReg, AttrError>)
    ensures (r.Err? && r.error.SplitFailed?) <==> multiset(x)['='] != 1
    ensures r.Err? && r.error.SplitFailed? ==> r.error.arg == x
    ensures r.Ok? ==> exists k, v ::
      && x == k + "=" + v && '=' !in k && '=' !in v
      && compile(k) == Ok(r.value.key) && compile(v) == Ok(r.value.value)
  {
    var t := Split(x, "=");
    SplitInTwo(x, '=');
    if |t| != 2 then Err(SplitFailed(x))
    else
      SplitPieces(x);
      match compile(t[0])
      case Err(e) => Err(KeyError(t[0], e))
      case Ok(key) =>
        match compile(t[1])
        case Err(e) => Err(ValueError(t[0], e))
        case Ok(value) => Ok(AttrReg(key, value))
  }

  /** The two pieces of a split on "=" put back together give the argument, and hold no "=". */
  lemma SplitPieces(x: string)
    requires |Split(x, "=")| == 2
    ensures var t := Split(x, "=");
      x == t[0] + "=" + t[1] && '=' !in t[0] && '=' !in t[1]
  {
    var t := Split(x, "=");
    SplitJoin(x, "=");
    assert t[1..] == [t[1]];
    SplitInTwo(x, '=');
    assert multiset(x) == multiset(t[0]) + multiset{'='} + multiset(t[1]);
  }

  /**
   * An argument with exactly one "=" is accepted when both halves compile;
   * otherwise a failing key is reported before a failing value, both under
   * the text before the "=".
   */
  lemma CompileEntryWellFormed(k: string, v: string, compile: string -> Result<Regexp, string>)
    requires '=' !in k && '=' !in v
    ensures CompileEntry(k + "=" + v, compile) ==
      if compile(k).Err? then Err(KeyError(k, compile(k).error))
      else if compile(v).Err? then Err(ValueError(k, compile(v).error))
      else Ok(AttrReg(compile(k).value, compile(v).value))
  {
    SplitAtRune(k, '=', v);
    assert k + "=" + v == k + ['='] + v;
  }

  /** Unfolding helper: how CompileEntry decides, step by step, as the loop
    * of compileAttr does; it follows from the definitions alone. */
  lemma CompileEntrySteps(x: string, compile: string -> Result<Regexp, string>)
    ensures var t, r := Split(x, "="), CompileEntry(x, compile);
      && (|t| != 2 ==> r == Err(SplitFailed(x)))
      && (|t| == 2 && compile(t[0]).Err? ==> r == Err(KeyError(t[0], compile(t[0]).error)))
      && (|t| == 2 && compile(t[0]).Ok? && compile(t[1]).Err? ==> r == Err(ValueError(t[0], compile(t[1]).error)))
      && (|t| == 2 && compile(t[0]).Ok? && compile(t[1]).Ok? ==> r == Ok(AttrReg(compile(t[0]).value, compile(t[1]).value)))
  {
  }

  /**
   * compileAttr: every argument, in order, is split and both pieces compiled;
   * the first argument that fails decides the error.
   */
  method CompileAttr(attrlist: seq<string>, compile: string -> Result<Regexp, string>)
    returns (r: Result<seq<AttrReg>, AttrError>)
    ensures r.Ok? <==> forall i :: 0 <= i < |attrlist| ==> CompileEntry(attrlist[i], compile).Ok?
    ensures r.Ok? ==> |r.value| == |attrlist|
    ensures r.Ok? ==> forall i :: 0 <= i < |attrlist| ==> r.value[i] == CompileEntry(attrlist[i], compile).value
    ensures r.Err? ==> exists i ::
      && 0 <= i < |attrlist|
      && (forall j :: 0 <= j < i ==> CompileEntry(attrlist[j], compile).Ok?)
      && CompileEntry(attrlist[i], compile) == Err(r.error)
  {
    var attrreg: seq<AttrReg> := [];
    for i := 0 to |attrlist|
      invariant |attrreg| == i
      invariant forall j :: 0 <= j < i ==> CompileEntry(attrlist[j], compile).Ok?
      invariant forall j :: 0 <= j < i ==> attrreg[j] == CompileEntry(attrlist[j], compile).value
    {
      var x := attrlist[i];
      CompileEntrySteps(x, compile);
      var t := Split(x, "=");
      if |t| != 2 {
        return Err(SplitFailed(x));
      }
      var key := compile(t[0]);
      if key.Err? {
        return Err(KeyError(t[0], key.error));
      }
      var value := compile(t[1]);
      if value.Err? {
        return Err(ValueError(t[0], value.error));
      }
      attrreg := attrreg + [AttrReg(key.value, value.value)];
    }
    return Ok(attrreg);
  }
}
