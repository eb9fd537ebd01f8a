/** The option record of the module and the dispatch table of cfg.c
    (`cfg_load_arg`, with `cfg_load_arg_debug` as its last resort), stated
    on record values: `Parse` reads a directive out of one argument the way
    the chain of `strcmp`/`strncmp` tests does, `Apply` performs it. The
    record class `Config.Cfg` is proved to update its fields as `Apply` says. */
module Dispatch {
  import opened Wrappers
  import opened CString

  /** The diagnostic sink: the built-in default, or the handle that
      `debug_open` returned for a path. */
  datatype Sink = DefaultSink | Opened(path: string)

  /** The flags of `cfg_t`: C ints that options only ever set to 1. */
  datatype FlagName =
    | Manual | Debug | NoUserOk | OpenAsUser | AlwaysOk | Interactive | Cue | NoDetect | Expand | SshFormat

  /** The three tri-state policy knobs. */
  datatype PolicyName = UserPresence | UserVerification | PinVerification

  /** The string options: pointers that are NULL until set. */
  datatype TextName = AuthFile | AuthPendingFile | Origin | AppId | Prompt | CuePrompt

  datatype Policies = Policies(userpresence: int, userverification: int, pinverification: int)

  datatype Texts = Texts(
    authFile: Option<string>, authpendingFile: Option<string>, origin: Option<string>,
    appid: Option<string>, prompt: Option<string>, cuePrompt: Option<string>)

  /** The fields of `cfg_t` that options set, grouped by kind: the device
      cap, the flags that hold 1 (every other flag holds 0), the
      tri-states, the strings and the diagnostic sink. */
  datatype Options = Options(
    maxDevs: nat,
    flags: set<FlagName>,
    policies: Policies,
    texts: Texts,
    debugFile: Sink)

  /** What `cfg_reset` leaves: everything zero or NULL, except the three
      tri-states, which are -1 ("unset"), and the default sink. */
  const Defaults: Options := Options(0, {}, Policies(-1, -1, -1), Texts(None, None, None, None, None, None), DefaultSink)

  // ---- fields, read and written one at a time ------------------------------

  datatype Field = MaxDevs | FlagOf(flag: FlagName) | PolicyOf(policy: PolicyName) | TextOf(text: TextName) | DebugFile

  datatype Value = Flag(b: bool) | Num(n: int) | Text(s: Option<string>) | Handle(k: Sink)

  /** The kind of value a field holds. */
  predicate Fits(f: Field, v: Value) {
    match f
    case MaxDevs => v.Num? && v.n >= 0
    case FlagOf(_) => v.Flag?
    case PolicyOf(_) => v.Num?
    case TextOf(_) => v.Text?
    case DebugFile => v.Handle?
  }

  function GetPolicy(ps: Policies, p: PolicyName): int {
    match p
    case UserPresence => ps.userpresence
    case UserVerification => ps.userverification
    case PinVerification => ps.pinverification
  }

  function SetPolicy(ps: Policies, p: PolicyName, n: int): (r: Policies)
    ensures forall q :: GetPolicy(r, q) == if q == p then n else GetPolicy(ps, q)
  {
    match p
    case UserPresence => ps.(userpresence := n)
    case UserVerification => ps.(userverification := n)
    case PinVerification => ps.(pinverification := n)
  }

  function GetText(ts: Texts, t: TextName): Option<string> {
    match t
    case AuthFile => ts.authFile
    case AuthPendingFile => ts.authpendingFile
    case Origin => ts.origin
    case AppId => ts.appid
    case Prompt => ts.prompt
    case CuePrompt => ts.cuePrompt
  }

  function SetText(ts: Texts, t: TextName, s: Option<string>): (r: Texts)
    ensures forall u :: GetText(r, u) == if u == t then s else GetText(ts, u)
  {
    match t
    case AuthFile => ts.(authFile := s)
    case AuthPendingFile => ts.(authpendingFile := s)
    case Origin => ts.(origin := s)
    case AppId => ts.(appid := s)
    case Prompt => ts.(prompt := s)
    case CuePrompt => ts.(cuePrompt := s)
  }

  function Get(o: Options, f: Field): (v: Value)
    ensures Fits(f, v)
  {
    match f
    case MaxDevs => Num(o.maxDevs)
    case FlagOf(n) => Flag(n in o.flags)
    case PolicyOf(p) => Num(GetPolicy(o.policies, p))
    case TextOf(t) => Text(GetText(o.texts, t))
    case DebugFile => Handle(o.debugFile)
  }

  /** The record with field `f` overwritten by `v`. */
  function Set(o: Options, f: Field, v: Value): (r: Options)
    requires Fits(f, v)
    ensures Get(r, f) == v
    ensures forall g :: g != f ==> Get(r, g) == Get(o, g)
  {
    match f
    case MaxDevs => o.(maxDevs := v.n)
    case FlagOf(n) => o.(flags := if v.b then o.flags + {n} else o.flags - {n})
    case PolicyOf(p) => o.(policies := SetPolicy(o.policies, p, v.n))
    case TextOf(t) => o.(texts := SetText(o.texts, t, v.s))
    case DebugFile => o.(debugFile := v.k)
  }

  /** Two records that agree on every field are the same record. */
  lemma Extensional(a: Options, b: Options)
    requires forall f :: Get(a, f) == Get(b, f)
    ensures a == b
  {
    assert Get(a, MaxDevs) == Get(b, MaxDevs) && Get(a, DebugFile) == Get(b, DebugFile);
    assert a.flags == b.flags by {
      forall n
        ensures n in a.flags <==> n in b.flags
      {
        assert Get(a, FlagOf(n)) == Get(b, FlagOf(n));
      }
    }
    assert GetPolicy(a.policies, UserPresence) == GetPolicy(b.policies, UserPresence) by {
      assert Get(a, PolicyOf(UserPresence)) == Get(b, PolicyOf(UserPresence));
    }
    assert GetPolicy(a.policies, UserVerification) == GetPolicy(b.policies, UserVerification) by {
      assert Get(a, PolicyOf(UserVerification)) == Get(b, PolicyOf(UserVerification));
    }
    assert GetPolicy(a.policies, PinVerification) == GetPolicy(b.policies, PinVerification) by {
      assert Get(a, PolicyOf(PinVerification)) == Get(b, PolicyOf(PinVerification));
    }
    forall t
      ensures GetText(a.texts, t) == GetText(b.texts, t)
    {
      assert Get(a, TextOf(t)) == Get(b, TextOf(t));
    }
    assert GetText(a.texts, AuthFile) == GetText(b.texts, AuthFile);
    assert GetText(a.texts, AuthPendingFile) == GetText(b.texts, AuthPendingFile);
    assert GetText(a.texts, Origin) == GetText(b.texts, Origin);
    assert GetText(a.texts, AppId) == GetText(b.texts, AppId);
    assert GetText(a.texts, Prompt) == GetText(b.texts, Prompt);
    assert GetText(a.texts, CuePrompt) == GetText(b.texts, CuePrompt);
  }

  /** The reset record: every flag clear, the device cap 0, every string
      NULL, the tri-states "unset" and the sink the default one. */
  lemma DefaultsAre(f: Field)
    ensures f.FlagOf? ==> Get(Defaults, f) == Flag(false)
    ensures f == MaxDevs ==> Get(Defaults, f) == Num(0)
    ensures f.PolicyOf? ==> Get(Defaults, f) == Num(-1)
    ensures f.TextOf? ==> Get(Defaults, f) == Text(None)
    ensures f == DebugFile ==> Get(Defaults, f) == Handle(DefaultSink)
  {
  }

  // ---- the dispatch table -------------------------------------------------

  /** What one argument asks for. */
  datatype Directive =
    | Raise(flag: FlagName)                 // a bare name: the flag := 1
    | Count(text: string)                   // `max_devices=` then `%u`
    | Policy(policy: PolicyName, text: string)  // a tri-state name then `%d`
    | Str(name: TextName, text: string)     // the string := the text after `=`
    | OpenSink(path: string)                // `debug_file=`: close, then `debug_open`
    | Ignore                                // matches no entry

  /** The tests of `cfg_load_arg`, in their order, falling back on the
      tests of `cfg_load_arg_debug`. */
  function Parse(arg: string): Directive {
    if HasPrefix(arg, "max_devices=") then Count(arg[12..])
    else if arg == "manual" then Raise(Manual)
    else if arg == "nouserok" then Raise(NoUserOk)
    else if arg == "openasuser" then Raise(OpenAsUser)
    else if arg == "alwaysok" then Raise(AlwaysOk)
    else if arg == "interactive" then Raise(Interactive)
    else if arg == "cue" then Raise(Cue)
    else if arg == "nodetect" then Raise(NoDetect)
    else if arg == "expand" then Raise(Expand)
    else ParseSettings(arg)
  }

  /** The chain continued: the tri-states and `authfile=`. */
  function ParseSettings(arg: string): Directive {
    if HasPrefix(arg, "userpresence=") then Policy(UserPresence, arg[13..])
    else if HasPrefix(arg, "userverification=") then Policy(UserVerification, arg[17..])
    else if HasPrefix(arg, "pinverification=") then Policy(PinVerification, arg[16..])
    else if HasPrefix(arg, "authfile=") then Str(AuthFile, arg[9..])
    else ParseStrings(arg)
  }

  /** The end of the chain: `sshformat`, the other strings, and then the
      tests of `cfg_load_arg_debug`. */
  function ParseStrings(arg: string): Directive {
    if arg == "sshformat" then Raise(SshFormat)
    else if HasPrefix(arg, "authpending_file=") then Str(AuthPendingFile, arg[17..])
    else if HasPrefix(arg, "origin=") then Str(Origin, arg[7..])
    else if HasPrefix(arg, "appid=") then Str(AppId, arg[6..])
    else if HasPrefix(arg, "prompt=") then Str(Prompt, arg[7..])
    else if HasPrefix(arg, "cue_prompt=") then Str(CuePrompt, arg[11..])
    else ParseDebug(arg)
  }

  /** The tests of `cfg_load_arg_debug`. */
  function ParseDebug(arg: string): Directive {
    if arg == "debug" then Raise(Debug)
    else if HasPrefix(arg, "debug_file=") then OpenSink(arg[11..])
    else Ignore
  }

  /** The field a directive assigns and the value it assigns, or `None`
      when it assigns nothing: an unknown token, or a number `sscanf`
      could not convert. */
  function Assigned(d: Directive): (a: Option<(Field, Value)>)
    ensures a.Some? ==> Fits(a.value.0, a.value.1)
  {
    match d
    case Raise(n) => Some((FlagOf(n), Flag(true)))
    case Count(t) =>
      (match ScanUnsigned(t)
       case None => None
       case Some(n) => Some((MaxDevs, Num(n))))
    case Policy(p, t) =>
      (match ScanSigned(t)
       case None => None
       case Some(n) => Some((PolicyOf(p), Num(n))))
    case Str(t, s) => Some((TextOf(t), Text(Some(s))))
    case OpenSink(p) => Some((DebugFile, Handle(Opened(p))))
    case Ignore => None
  }

  /** Performing a directive: the assigned field takes its new value. */
  function Exec(o: Options, d: Directive): Options {
    match Assigned(d)
    case None => o
    case Some(fv) => Set(o, fv.0, fv.1)
  }

  /** `cfg_load_arg(cfg, arg)` on the record. */
  function Apply(o: Options, arg: string): Options {
    Exec(o, Parse(arg))
  }

  /** `cfg_load_arg_debug(cfg, arg)` on the record. */
  function ApplyDebug(o: Options, arg: string): Options {
    Exec(o, ParseDebug(arg))
  }

  /** The arguments applied one after the other, first to last. */
  function ApplyAll(o: Options, args: seq<string>): Options
    decreases |args|
  {
    if args == [] then o else ApplyAll(Apply(o, args[0]), args[1..])
  }

  /** `arg` assigns field `f`. */
  predicate Sets(arg: string, f: Field) {
    Assigned(Parse(arg)).Some? && Assigned(Parse(arg)).value.0 == f
  }

  // ---- what the table does ------------------------------------------------

  /** The names that `cfg_load_arg` and `cfg_load_arg_debug` compare an
      argument with, whole or as a prefix. */
  const Names: seq<string> := ["manual", "nouserok", "openasuser", "alwaysok", "interactive",
                               "cue", "nodetect", "expand", "sshformat", "debug"]
  const Prefixes: seq<string> := ["max_devices=", "userpresence=", "userverification=",
                                  "pinverification=", "authfile=", "authpending_file=",
                                  "origin=", "appid=", "prompt=", "cue_prompt=", "debug_file="]

  predicate Recognized(arg: string) {
    arg in Names || exists p :: p in Prefixes && HasPrefix(arg, p)
  }

  /** An argument is ignored exactly when it is none of the names and
      starts with none of the prefixes. */
  lemma IgnoredIffUnknown(arg: string)
    ensures Parse(arg) == Ignore <==> !Recognized(arg)
  {
    if Parse(arg) == Ignore {
      IgnoredIsUnknown(arg);
    } else {
      KnownIsRecognized(arg);
    }
  }

  lemma IgnoredIsUnknown(arg: string)
    requires Parse(arg) == Ignore
    ensures !Recognized(arg)
  {
    assert ParseSettings(arg) == Ignore;
    assert ParseStrings(arg) == Ignore;
    assert forall p :: p in Prefixes ==> !HasPrefix(arg, p);
  }

  lemma KnownIsRecognized(arg: string)
    requires Parse(arg) != Ignore
    ensures Recognized(arg)
  {
    if HasPrefix(arg, "max_devices=") { assert "max_devices=" in Prefixes; }
    if HasPrefix(arg, "userpresence=") { assert "userpresence=" in Prefixes; }
    if HasPrefix(arg, "userverification=") { assert "userverification=" in Prefixes; }
    if HasPrefix(arg, "pinverification=") { assert "pinverification=" in Prefixes; }
    if HasPrefix(arg, "authfile=") { assert "authfile=" in Prefixes; }
    if HasPrefix(arg, "authpending_file=") { assert "authpending_file=" in Prefixes; }
    if HasPrefix(arg, "origin=") { assert "origin=" in Prefixes; }
    if HasPrefix(arg, "appid=") { assert "appid=" in Prefixes; }
    if HasPrefix(arg, "prompt=") { assert "prompt=" in Prefixes; }
    if HasPrefix(arg, "cue_prompt=") { assert "cue_prompt=" in Prefixes; }
    if HasPrefix(arg, "debug_file=") { assert "debug_file=" in Prefixes; }
  }

  /** A token that matches no entry of the table leaves the record alone. */
  lemma UnknownKeeps(o: Options, arg: string)
    requires !Recognized(arg)
    ensures Apply(o, arg) == o
  {
    IgnoredIffUnknown(arg);
  }

  /** A `max_devices=` whose text `%u` cannot convert leaves the record
      alone, the device cap included. */
  lemma CountUnparsedKeeps(o: Options, arg: string)
    requires HasPrefix(arg, "max_devices=") && ScanUnsigned(arg[12..]) == None
    ensures Apply(o, arg) == o
  {
  }

  /** The name of a tri-state directive, `=` included. */
  function PolicyKey(p: PolicyName): (key: string)
    ensures key in Prefixes
  {
    match p
    case UserPresence => "userpresence="
    case UserVerification => "userverification="
    case PinVerification => "pinverification="
  }

  /** A tri-state directive reaches its own entry of the chain. */
  lemma ParsePolicy(arg: string, p: PolicyName)
    requires HasPrefix(arg, PolicyKey(p))
    ensures Parse(arg) == Policy(p, arg[|PolicyKey(p)|..])
  {
    match p
    case UserPresence => assert arg[0] == 'u';
    case UserVerification => assert arg[0] == 'u' && arg[4] == 'v';
    case PinVerification => assert arg[0] == 'p';
  }

  /** A tri-state directive whose text `%d` cannot convert leaves the
      record alone; one whose text converts stores the number. */
  lemma PolicyScan(o: Options, arg: string, p: PolicyName)
    requires HasPrefix(arg, PolicyKey(p))
    ensures ScanSigned(arg[|PolicyKey(p)|..]) == None ==> Apply(o, arg) == o
    ensures ScanSigned(arg[|PolicyKey(p)|..]).Some? ==>
              Apply(o, arg) == o.(policies := SetPolicy(o.policies, p, ScanSigned(arg[|PolicyKey(p)|..]).value))
  {
    ParsePolicy(arg, p);
    ExecPolicy(o, p, arg[|PolicyKey(p)|..]);
  }

  /** A tri-state directive, performed. */
  lemma ExecPolicy(o: Options, p: PolicyName, t: string)
    ensures ScanSigned(t) == None ==> Exec(o, Policy(p, t)) == o
    ensures ScanSigned(t).Some? ==> Exec(o, Policy(p, t)) == o.(policies := SetPolicy(o.policies, p, ScanSigned(t).value))
  {
  }

  /** The name of a string directive, `=` included. */
  function TextKey(t: TextName): (key: string)
    ensures key in Prefixes
  {
    match t
    case AuthFile => "authfile="
    case AuthPendingFile => "authpending_file="
    case Origin => "origin="
    case AppId => "appid="
    case Prompt => "prompt="
    case CuePrompt => "cue_prompt="
  }

  /** A string directive reaches its own entry of the chain. */
  lemma ParseText(arg: string, t: TextName)
    requires HasPrefix(arg, TextKey(t))
    ensures Parse(arg) == Str(t, arg[|TextKey(t)|..])
  {
    match t
    case AuthFile => ParseAuthFile(arg);
    case AuthPendingFile => ParseAuthPendingFile(arg);
    case Origin => ParseOrigin(arg);
    case AppId => ParseAppId(arg);
    case Prompt => ParsePrompt(arg);
    case CuePrompt => ParseCuePrompt(arg);
  }

  lemma ParseAuthFile(arg: string)
    requires HasPrefix(arg, "authfile=")
    ensures Parse(arg) == Str(AuthFile, arg[9..])
  {
    assert arg[0] == 'a' && arg[1] == 'u' && arg[4] == 'f';
    assert Parse(arg) == ParseSettings(arg);
  }

  lemma ParseAuthPendingFile(arg: string)
    requires HasPrefix(arg, "authpending_file=")
    ensures Parse(arg) == Str(AuthPendingFile, arg[17..])
  {
    assert arg[0] == 'a' && arg[1] == 'u' && arg[4] == 'p';
    assert Parse(arg) == ParseSettings(arg);
    assert ParseSettings(arg) == ParseStrings(arg);
  }

  lemma ParseOrigin(arg: string)
    requires HasPrefix(arg, "origin=")
    ensures Parse(arg) == Str(Origin, arg[7..])
  {
    assert arg[0] == 'o' && arg[1] == 'r';
    assert Parse(arg) == ParseSettings(arg);
    assert ParseSettings(arg) == ParseStrings(arg);
  }

  lemma ParseAppId(arg: string)
    requires HasPrefix(arg, "appid=")
    ensures Parse(arg) == Str(AppId, arg[6..])
  {
    assert arg[0] == 'a' && arg[1] == 'p';
    assert Parse(arg) == ParseSettings(arg);
    assert ParseSettings(arg) == ParseStrings(arg);
  }

  lemma ParsePrompt(arg: string)
    requires HasPrefix(arg, "prompt=")
    ensures Parse(arg) == Str(Prompt, arg[7..])
  {
    assert arg[0] == 'p' && arg[1] == 'r';
    assert Parse(arg) == ParseSettings(arg);
    assert ParseSettings(arg) == ParseStrings(arg);
  }

  lemma ParseCuePrompt(arg: string)
    requires HasPrefix(arg, "cue_prompt=")
    ensures Parse(arg) == Str(CuePrompt, arg[11..])
  {
    assert arg[0] == 'c' && arg[3] == '_';
    assert Parse(arg) == ParseSettings(arg);
    assert ParseSettings(arg) == ParseStrings(arg);
  }

  /** A string directive stores the text after its `=`, borrowed whole. */
  lemma TextSets(o: Options, arg: string, t: TextName)
    requires HasPrefix(arg, TextKey(t))
    ensures Apply(o, arg) == o.(texts := SetText(o.texts, t, Some(arg[|TextKey(t)|..])))
  {
    ParseText(arg, t);
  }

  /** The name of a flag directive. */
  function FlagKey(n: FlagName): (key: string)
    ensures key in Names
  {
    match n
    case Manual => "manual"
    case Debug => "debug"
    case NoUserOk => "nouserok"
    case OpenAsUser => "openasuser"
    case AlwaysOk => "alwaysok"
    case Interactive => "interactive"
    case Cue => "cue"
    case NoDetect => "nodetect"
    case Expand => "expand"
    case SshFormat => "sshformat"
  }

  /** A flag's name reaches its own entry of the chain. */
  lemma ParseFlag(n: FlagName)
    ensures Parse(FlagKey(n)) == Raise(n)
  {
    match n
    case Manual =>
    case Debug => ParseFallsThrough("debug");
    case NoUserOk =>
    case OpenAsUser =>
    case AlwaysOk =>
    case Interactive =>
    case Cue =>
    case NoDetect =>
    case Expand =>
    case SshFormat =>
      assert ParseSettings("sshformat") == ParseStrings("sshformat") by {
        Differs("sshformat", "authfile=", 0);
      }
  }

  /** A text that differs from `p` at some position does not start with `p`. */
  lemma Differs(s: string, p: string, k: nat)
    requires k < |s| && k < |p| && s[k] != p[k]
    ensures !HasPrefix(s, p)
  {
  }

  /** A flag's name raises that flag and touches nothing else. */
  lemma FlagSets(o: Options, n: FlagName)
    ensures Apply(o, FlagKey(n)) == o.(flags := o.flags + {n})
  {
    ParseFlag(n);
  }

  /** A number that does convert is stored, and only it. */
  lemma CountParsedSets(o: Options, arg: string, n: nat)
    requires HasPrefix(arg, "max_devices=") && ScanUnsigned(arg[12..]) == Some(n)
    ensures Apply(o, arg) == o.(maxDevs := n)
  {
  }

  /** One argument changes at most the one field it assigns, and that
      field then holds the assigned value whatever it held before. */
  lemma ApplyFrame(o: Options, arg: string)
    ensures forall f :: !Sets(arg, f) ==> Get(Apply(o, arg), f) == Get(o, f)
    ensures forall f :: Sets(arg, f) ==> Get(Apply(o, arg), f) == Assigned(Parse(arg)).value.1
  {
  }

  /** Applying the same token twice is applying it once. */
  lemma ApplyIdempotent(o: Options, arg: string)
    ensures Apply(Apply(o, arg), arg) == Apply(o, arg)
  {
    var once := Apply(o, arg);
    ApplyFrame(o, arg);
    ApplyFrame(once, arg);
    forall f
      ensures Get(Apply(once, arg), f) == Get(once, f)
    {
    }
    Extensional(Apply(once, arg), once);
  }

  /** `cfg_load_arg` reaches `cfg_load_arg_debug` for the two debug
      directives, and `cfg_load_arg_debug` ignores every other token: the
      early pass performs the debug directives exactly as the full pass does. */
  lemma DebugPassAgrees(o: Options, arg: string)
    ensures ParseDebug(arg) != Ignore ==> Apply(o, arg) == ApplyDebug(o, arg)
    ensures ParseDebug(arg) == Ignore ==> ApplyDebug(o, arg) == o
  {
    if ParseDebug(arg) != Ignore {
      assert arg[0] == 'd' by {
        if arg != "debug" {
          assert arg[0] == "debug_file="[0];
        }
      }
      ParseFallsThrough(arg);
    }
  }

  /** Every entry of `cfg_load_arg` starts with a letter other than `d`. */
  lemma ParseFallsThrough(arg: string)
    requires arg != [] && arg[0] == 'd'
    ensures Parse(arg) == ParseDebug(arg)
  {
    assert Parse(arg) == ParseSettings(arg);
    assert ParseSettings(arg) == ParseStrings(arg);
  }

  // ---- sequences of arguments -----------------------------------------------

  /** A field no argument assigns keeps its value through the whole list. */
  lemma {:induction false} UntouchedSurvives(o: Options, args: seq<string>, f: Field)
    requires forall i :: 0 <= i < |args| ==> !Sets(args[i], f)
    decreases |args|
    ensures Get(ApplyAll(o, args), f) == Get(o, f)
  {
    if args != [] {
      ApplyFrame(o, args[0]);
      UntouchedSurvives(Apply(o, args[0]), args[1..], f);
    }
  }

  /** A field some argument assigns ends with a value that does not depend
      on what the record held before the list was applied. */
  lemma {:induction false} AssignedOverrides(o1: Options, o2: Options, args: seq<string>, f: Field)
    requires exists i :: 0 <= i < |args| && Sets(args[i], f)
    decreases |args|
    ensures Get(ApplyAll(o1, args), f) == Get(ApplyAll(o2, args), f)
  {
    ApplyFrame(o1, args[0]);
    ApplyFrame(o2, args[0]);
    var p1, p2 := Apply(o1, args[0]), Apply(o2, args[0]);
    if Sets(args[0], f) {
      if forall i :: 0 <= i < |args[1..]| ==> !Sets(args[1..][i], f) {
        UntouchedSurvives(p1, args[1..], f);
        UntouchedSurvives(p2, args[1..], f);
      } else {
        AssignedOverrides(p1, p2, args[1..], f);
      }
    } else {
      var i :| 0 <= i < |args| && Sets(args[i], f);
      assert args[1..][i - 1] == args[i];
      AssignedOverrides(p1, p2, args[1..], f);
    }
  }

  /** Applying two lists one after the other is applying their concatenation. */
  lemma {:induction false} ApplyAllAppend(o: Options, xs: seq<string>, ys: seq<string>)
    decreases |xs|
    ensures ApplyAll(o, xs + ys) == ApplyAll(ApplyAll(o, xs), ys)
  {
    if xs == [] {
      assert xs + ys == ys;
    } else {
      assert (xs + ys)[1..] == xs[1..] + ys;
      ApplyAllAppend(Apply(o, xs[0]), xs[1..], ys);
    }
  }
}
