/** `cfg_t` and the entry points of cfg.c: `cfg_reset`, `cfg_init` and
    `cfg_free`, with the static steps `cfg_load_arg_debug`, `cfg_load_arg`,
    `cfg_load_buffer` and `cfg_load_defaults`. The record is a class whose
    fields the methods update in place; `Value` reads them as a
    `Dispatch.Options` value, and every method is proved to leave the value
    that the functions of this module and of `Dispatch` prescribe.

    The outside world is a parameter: `Env` holds the file system that
    `open_safely` walks, the behaviour of `read`, and whether `strdup` or
    `malloc` run out of memory. */
module Config {
  import opened Wrappers
  import opened Pam
  import opened CString
  import opened Normalizer
  import opened LineBuffer
  import opened Dispatch
  import opened SafeOpen
  import opened Reader

  /** `CFG_DEFAULT_PATH`. */
  const DEFAULT_PATH: string := "/etc/security/pam_u2f.conf"

  /** What the module sees of the system: the file system, whether it is a
      testing build (ownership is not checked), whether `strdup` in
      `open_safely` fails, how each `read` call behaves, and whether the
      `malloc` in `slurp` fails. */
  datatype Env = Env(fs: Fs, testing: bool, strdupFails: bool, calls: seq<Call>, mallocFails: bool)

  // ---- the configuration file -------------------------------------------------

  /** The arguments `cfg_load_buffer` hands to `cfg_load_arg`: every line
      packed, in order, the lines that pack to nothing skipped. */
  function FileArgs(lines: seq<string>): seq<string>
    decreases |lines|
  {
    if lines == [] then []
    else
      var p := Packed(lines[|lines| - 1]);
      FileArgs(lines[..|lines| - 1]) + (if p == [] then [] else [p])
  }

  /** The arguments a configuration text yields: its non-empty lines, packed. */
  function FileText(text: string): seq<string> {
    FileArgs(Tokens(text, '\n'))
  }

  /** One line of the file applied to the record: `cfg_load_arg` on the
      packed line, unless it packs to nothing. */
  function Line(o: Options, line: string): Options {
    var p := Packed(line);
    if p == [] then o else Apply(o, p)
  }

  /** The lines applied one after the other, first to last. */
  function Replay(o: Options, lines: seq<string>): Options
    decreases |lines|
  {
    if lines == [] then o else Line(Replay(o, lines[..|lines| - 1]), lines[|lines| - 1])
  }

  /** Replaying the lines is applying the arguments they yield. */
  lemma {:induction false} ReplayIsApplyAll(o: Options, lines: seq<string>)
    decreases |lines|
    ensures Replay(o, lines) == ApplyAll(o, FileArgs(lines))
  {
    if lines != [] {
      var init, l := lines[..|lines| - 1], lines[|lines| - 1];
      ReplayIsApplyAll(o, init);
      var p := Packed(l);
      if p == [] {
        assert FileArgs(lines) == FileArgs(init) + [];
        assert FileArgs(init) + [] == FileArgs(init);
      } else {
        ApplyAllAppend(o, FileArgs(init), [p]);
      }
    }
  }

  /** The lines of a file are taken in order: the arguments of two blocks of
      lines are those of the first block, then those of the second. */
  lemma {:induction false} FileArgsAppend(xs: seq<string>, ys: seq<string>)
    decreases |ys|
    ensures FileArgs(xs + ys) == FileArgs(xs) + FileArgs(ys)
  {
    if ys == [] {
      assert xs + ys == xs;
    } else {
      var init := ys[..|ys| - 1];
      assert (xs + ys)[..|xs + ys| - 1] == xs + init;
      assert (xs + ys)[|xs + ys| - 1] == ys[|ys| - 1];
      FileArgsAppend(xs, init);
    }
  }

  /** Every argument that comes from the file is non-empty, has no blank at
      either end, holds no `#`, and packs to itself. */
  lemma {:induction false} FileArgsShape(lines: seq<string>)
    decreases |lines|
    ensures forall i :: 0 <= i < |FileArgs(lines)| ==>
              var a := FileArgs(lines)[i];
              a != [] && IsTrimmed(a) && '#' !in a && Packed(a) == a
  {
    if lines != [] {
      var l := lines[|lines| - 1];
      FileArgsShape(lines[..|lines| - 1]);
      PackedIsTrimmed(l);
      PackedHasNoComment(l);
      PackedIdempotent(l);
    }
  }

  /** A line of blanks, or of blanks and then a comment, yields no argument. */
  lemma CommentLineSkipped(a: string, comment: string)
    requires AllSpace(a)
    ensures FileArgs([a + "#" + comment]) == []
    ensures FileArgs([a]) == []
  {
    var tail := "#" + comment;
    var l := a + tail;
    assert a + "#" + comment == l;
    NotInSpaces(a, '#');
    FindAppend(a, '#', tail);
    assert Find(tail, '#') == 0;
    assert StripComment(l) == a by {
      assert l[..|a|] == a;
    }
    PackedOfSpaces(a);
    assert StripComment(a) == a by {
      FindAppend(a, '#', []);
      assert a + [] == a;
    }
  }

  /** Blanks pack to nothing. */
  lemma PackedOfSpaces(a: string)
    requires AllSpace(a)
    ensures LTrim(a) == [] && Packed(a) == []
  {
    LeadingIs(a, |a|);
    NotInSpaces(a, '#');
    FindAppend(a, '#', []);
    assert a + [] == a;
  }

  /** A text made of lines joined by newlines: the arguments are those of
      its lines, whichever way the lines are grouped into the text. */
  lemma FileTextOfLines(lines: seq<string>)
    requires forall i :: 0 <= i < |lines| ==> lines[i] != [] && '\n' !in lines[i]
    ensures FileText(Join(lines, '\n')) == FileArgs(lines)
  {
    TokensJoin(lines, '\n');
  }

  // ---- the argument vector ------------------------------------------------------

  /** `strncmp(arg, "conf=", 5) == 0`. */
  predicate IsConf(arg: string) {
    HasPrefix(arg, "conf=")
  }

  /** The configuration file named on the command line: the text after the
      last `conf=`, or none. */
  function ConfPath(args: seq<string>): Option<string>
    decreases |args|
  {
    if args == [] then None
    else
      var a := args[|args| - 1];
      if IsConf(a) then Some(a[5..]) else ConfPath(args[..|args| - 1])
  }

  /** The arguments other than `conf=`, in order. */
  function Others(args: seq<string>): seq<string>
    decreases |args|
  {
    if args == [] then []
    else
      var a := args[|args| - 1];
      Others(args[..|args| - 1]) + (if IsConf(a) then [] else [a])
  }

  /** `cfg_load_arg_debug` applied to every argument, first to last. */
  function DebugAll(o: Options, args: seq<string>): Options
    decreases |args|
  {
    if args == [] then o else ApplyDebug(DebugAll(o, args[..|args| - 1]), args[|args| - 1])
  }

  /** `conf=` arguments are dropped and every other argument kept. */
  lemma {:induction false} OthersAre(args: seq<string>)
    decreases |args|
    ensures forall a :: a in Others(args) <==> a in args && !IsConf(a)
  {
    if args != [] {
      var init := args[..|args| - 1];
      OthersAre(init);
      assert args == init + [args[|args| - 1]];
    }
  }

  /** The path is the one of the last `conf=` argument. */
  lemma {:induction false} ConfPathIsLast(args: seq<string>, i: nat)
    requires i < |args| && IsConf(args[i])
    requires forall j :: i < j < |args| ==> !IsConf(args[j])
    decreases |args|
    ensures ConfPath(args) == Some(args[i][5..])
  {
    if i < |args| - 1 {
      var init := args[..|args| - 1];
      assert init[i] == args[i];
      ConfPathIsLast(init, i);
    }
  }

  /** Without any `conf=` argument the default file is read. */
  lemma {:induction false} NoConfPath(args: seq<string>)
    requires forall j :: 0 <= j < |args| ==> !IsConf(args[j])
    decreases |args|
    ensures ConfPath(args) == None && Others(args) == args
  {
    if args != [] {
      var init := args[..|args| - 1];
      NoConfPath(init);
      assert args == init + [args[|args| - 1]];
    }
  }

  // ---- cfg_load_defaults and cfg_init, as values ---------------------------------

  /** The file `cfg_load_defaults` opens. */
  function ChosenPath(configPath: Option<string>): string {
    match configPath
    case Some(p) => p
    case None => DEFAULT_PATH
  }

  /** What `cfg_load_defaults(cfg, config_path)` returns and what the
      record holds after it: an error of `open_safely` is passed on; a
      missing file is an error only when it was named explicitly; an empty
      file loads nothing; otherwise the file is read and its lines applied. */
  function Defaulted(env: Env, configPath: Option<string>, o: Options): (int, Options) {
    var res := Resolve(env.fs, ChosenPath(configPath), env.testing, env.strdupFails);
    if res.code != SUCCESS then (res.code, o)
    else if res.file.None? then (if configPath.Some? then SERVICE_ERR else SUCCESS, o)
    else if res.file.value.size == 0 then (SUCCESS, o)
    else Absorbed(SlurpResult(res.file.value.content, env.calls, res.file.value.size, env.mallocFails), o)
  }

  /** The outcome of reading the file into the record: a failed read is
      passed on, a successful one has its lines applied in order. */
  function Absorbed(s: Slurped, o: Options): (int, Options) {
    match s
    case Failed(c) => (c, o)
    case Loaded(bytes) => (SUCCESS, Replay(o, Tokens(CStr(bytes), '\n')))
  }

  /** What `cfg_init(cfg, flags, argc, argv)` returns and what the record
      holds after it: the debug options of the arguments, then the file,
      then every argument except `conf=`; on failure, the reset record. */
  function Initialized(env: Env, args: seq<string>): (int, Options) {
    Finish(Defaulted(env, ConfPath(args), DebugAll(Defaults, Others(args))), args)
  }

  /** The last step of `cfg_init`, from what `cfg_load_defaults` returned
      and left: on success every argument except `conf=` applied again, on
      failure the reset record. */
  function Finish(d: (int, Options), args: seq<string>): (int, Options) {
    if d.0 == SUCCESS then (SUCCESS, ApplyAll(d.1, Others(args))) else (d.0, Defaults)
  }

  /** Moving the first pending element over to the processed ones. */
  lemma Regroup(all: seq<string>, done: seq<string>, cur: string, ts: seq<string>, t: string, tr: seq<string>)
    requires all == done + ([cur] + ts) && ts == [t] + tr
    ensures all == (done + [cur]) + ([t] + tr)
  {
  }

  // ---- the record -----------------------------------------------------------------

  /** `cfg_t`. Its int flags, which options only ever set to 1, are kept
      as the set of flags that hold 1; its tri-states and its strings are
      kept as the records `Dispatch` defines. `defaultsBuffer` is the buffer
      the file was read into; the strings that came from the file point
      into it. */
  class Cfg {
    var maxDevs: nat
    var flags: set<FlagName>
    var policies: Policies
    var texts: Texts
    var debugFile: Sink
    var defaultsBuffer: array?<char>

    /** The option fields, as a record value. */
    function Value(): Options
      reads this
    {
      Options(maxDevs, flags, policies, texts, debugFile)
    }

    /** `cfg_reset`: the record of `Dispatch.Defaults`, and no buffer. */
    method Reset()
      modifies this
      ensures Value() == Defaults && defaultsBuffer == null
    {
      maxDevs := 0;
      flags := {};
      policies := Policies(-1, -1, -1);
      texts := Texts(None, None, None, None, None, None);
      debugFile := DefaultSink;
      defaultsBuffer := null;
    }

    /** `cfg_load_arg_debug(cfg, arg)`. */
    method LoadArgDebug(arg: string)
      modifies this
      ensures Value() == ApplyDebug(old(Value()), arg)
      ensures defaultsBuffer == old(defaultsBuffer)
    {
      if arg == "debug" {
        flags := flags + {Debug};
      } else if HasPrefix(arg, "debug_file=") {
        debugFile := Opened(arg[11..]);
      }
    }

    /** `cfg_load_arg(cfg, arg)`. */
    method LoadArg(arg: string)
      modifies this
      ensures Value() == Apply(old(Value()), arg)
      ensures defaultsBuffer == old(defaultsBuffer)
    {
      if HasPrefix(arg, "max_devices=") {
        var n := ScanUnsigned(arg[12..]);
        if n.Some? {
          maxDevs := n.value;
        }
      } else if arg == "manual" {
        flags := flags + {Manual};
      } else if arg == "nouserok" {
        flags := flags + {NoUserOk};
      } else if arg == "openasuser" {
        flags := flags + {OpenAsUser};
      } else if arg == "alwaysok" {
        flags := flags + {AlwaysOk};
      } else if arg == "interactive" {
        flags := flags + {Interactive};
      } else if arg == "cue" {
        flags := flags + {Cue};
      } else if arg == "nodetect" {
        flags := flags + {NoDetect};
      } else if arg == "expand" {
        flags := flags + {Expand};
      } else {
        LoadSetting(arg);
      }
    }

    /** The chain of `cfg_load_arg` continued: the tri-states and `authfile=`. */
    method LoadSetting(arg: string)
      modifies this
      ensures Value() == Exec(old(Value()), ParseSettings(arg))
      ensures defaultsBuffer == old(defaultsBuffer)
    {
      if HasPrefix(arg, "userpresence=") {
        var n := ScanSigned(arg[13..]);
        if n.Some? {
          policies := policies.(userpresence := n.value);
        }
      } else if HasPrefix(arg, "userverification=") {
        var n := ScanSigned(arg[17..]);
        if n.Some? {
          policies := policies.(userverification := n.value);
        }
      } else if HasPrefix(arg, "pinverification=") {
        var n := ScanSigned(arg[16..]);
        if n.Some? {
          policies := policies.(pinverification := n.value);
        }
      } else if HasPrefix(arg, "authfile=") {
        texts := texts.(authFile := Some(arg[9..]));
      } else {
        LoadString(arg);
      }
    }

    /** The end of the chain of `cfg_load_arg`: `sshformat`, the other
        strings, then `cfg_load_arg_debug`. */
    method LoadString(arg: string)
      modifies this
      ensures Value() == Exec(old(Value()), ParseStrings(arg))
      ensures defaultsBuffer == old(defaultsBuffer)
    {
      if arg == "sshformat" {
        flags := flags + {SshFormat};
      } else if HasPrefix(arg, "authpending_file=") {
        texts := texts.(authpendingFile := Some(arg[17..]));
      } else if HasPrefix(arg, "origin=") {
        texts := texts.(origin := Some(arg[7..]));
      } else if HasPrefix(arg, "appid=") {
        texts := texts.(appid := Some(arg[6..]));
      } else if HasPrefix(arg, "prompt=") {
        texts := texts.(prompt := Some(arg[7..]));
      } else if HasPrefix(arg, "cue_prompt=") {
        texts := texts.(cuePrompt := Some(arg[11..]));
      } else {
        LoadArgDebug(arg);
      }
    }

    /** One pass of the loop of `cfg_load_buffer`: the line at `lo` is
        packed in place and, unless it packs to nothing, loaded. Only the
        characters of the line may change; its NUL is kept. */
    method LoadLine(a: array<char>, lo: nat, ghost line: string)
      requires StrAt(a[..], lo, line)
      modifies this, a
      ensures Value() == Line(old(Value()), line)
      ensures defaultsBuffer == old(defaultsBuffer)
      ensures forall k :: 0 <= k < a.Length && (k < lo || lo + |line| <= k) ==> a[k] == old(a[k])
    {
      var arg := PackAt(a, lo, line);
      StrAtEmpty(a[..], arg, Packed(line));
      if a[arg] == '\0' {
        return;
      }
      var n := StrLen(a, arg, Packed(line));
      StrAtSlice(a[..], arg, Packed(line));
      LoadArg(a[arg..arg + n]);
    }

    /** The body of the loop of `cfg_load_buffer`: `strtok_r` pins the line
        after the current one (the C string `after` at `save`), then the
        current line `cur` at `lo` is packed and loaded. */
    method NextLine(buffer: array<char>, lo: nat, ghost cur: string, save: nat, ghost after: string,
                    ghost all: seq<string>, ghost done: seq<string>)
      returns (found: bool, line: nat, next: nat, ghost t: string, ghost rest: string)
      requires StrAt(buffer[..], lo, cur) && StrAt(buffer[..], save, after)
      requires lo + |cur| <= save && (save == lo + |cur| ==> after == [])
      requires all == done + ([cur] + Tokens(after, '\n'))
      ensures found ==> all == (done + [cur]) + ([t] + Tokens(rest, '\n'))
      ensures !found ==> all == done + [cur]
      modifies this, buffer
      ensures Value() == Line(old(Value()), cur)
      ensures defaultsBuffer == old(defaultsBuffer)
      ensures found <==> Tokens(after, '\n') != []
      ensures found ==> Tokens(after, '\n') == [t] + Tokens(rest, '\n') && |rest| < |after| &&
                        StrAt(buffer[..], line, t) && StrAt(buffer[..], next, rest) &&
                        line + |t| <= next && (next == line + |t| ==> rest == [])
    {
      ghost var b0 := buffer[..];
      TokensWellFormed(after, '\n');
      found, line, next, t, rest := NextToken(buffer, save, '\n', after);
      if found {
        Regroup(all, done, cur, Tokens(after, '\n'), t, Tokens(rest, '\n'));
      } else {
        assert all == done + [cur] by {
          assert [cur] + [] == [cur];
        }
      }
      KeptStrAt(b0, buffer[..], lo, cur);
      ghost var b1 := buffer[..];
      LoadLine(buffer, lo, cur);
      if found {
        assert t == Tokens(after, '\n')[0];
        KeptStrAt(b1, buffer[..], line, t);
        KeptStrAt(b1, buffer[..], next, rest);
      }
    }

    /** `cfg_load_buffer(cfg, buffer)`: the lines of the C string in the
        buffer, split by `strtok_r` and each packed in place, are loaded
        first to last. */
    method LoadBuffer(buffer: array<char>)
      requires '\0' in buffer[..]
      modifies this, buffer
      ensures Value() == Replay(old(Value()), Tokens(CStr(old(buffer[..])), '\n'))
      ensures defaultsBuffer == old(defaultsBuffer)
    {
      ghost var text := CStr(buffer[..]);
      ghost var o0 := Value();
      StrAtStart(buffer[..]);
      var found: bool, line: nat, save: nat, t, rest := NextToken(buffer, 0, '\n', text);
      ghost var done: seq<string> := [];
      ghost var all := Tokens(text, '\n');
      while found
        invariant found ==> StrAt(buffer[..], line, t) && StrAt(buffer[..], save, rest) &&
                            line + |t| <= save && (save == line + |t| ==> rest == [])
        invariant found ==> all == done + ([t] + Tokens(rest, '\n'))
        invariant !found ==> all == done
        invariant Value() == Replay(o0, done)
        invariant defaultsBuffer == old(defaultsBuffer)
        decreases if found then |rest| + 1 else 0
      {
        // Pin the next line before the buffer is rewritten.
        var buf := line;
        ghost var cur, after := t, rest;
        found, line, save, t, rest := NextLine(buffer, buf, cur, save, after, all, done);
        assert (done + [cur])[..|done|] == done;
        done := done + [cur];
      }
    }

    /** `cfg_load_defaults(cfg, config_path)`. On success with a non-empty
        file the record keeps the buffer the file was read into; otherwise
        the buffer reference is left as it was. */
    method LoadDefaults(configPath: Option<string>, env: Env) returns (r: int)
      modifies this
      ensures (r, Value()) == Defaulted(env, configPath, old(Value()))
      ensures defaultsBuffer == old(defaultsBuffer) || (r == SUCCESS && fresh(defaultsBuffer))
      ensures var res := Resolve(env.fs, ChosenPath(configPath), env.testing, env.strdupFails);
              if r == SUCCESS && res.file.Some? && res.file.value.size > 0
              then defaultsBuffer != null && fresh(defaultsBuffer) && defaultsBuffer.Length == res.file.value.size + 1
              else defaultsBuffer == old(defaultsBuffer)
    {
      var path := if configPath.Some? then configPath.value else DEFAULT_PATH;
      var file, size;
      r, file, size := OpenSafely(env.fs, path, env.testing, env.strdupFails);
      if r != SUCCESS {
        return;
      }
      if file.None? {
        // Only the default configuration file may be missing.
        r := if configPath.Some? then SERVICE_ERR else SUCCESS;
        return;
      }
      if size == 0 {
        r := SUCCESS;
        return;
      }
      r := LoadFile(file.value, size, env);
    }

    /** The second half of `cfg_load_defaults`: the opened, non-empty file
        is read and loaded, and the `to_read + 1` characters it was read
        into are kept in the record; a failed read keeps the old reference. */
    method LoadFile(file: Node, size: nat, env: Env) returns (r: int)
      modifies this
      ensures (r, Value()) == Absorbed(SlurpResult(file.content, env.calls, size, env.mallocFails), old(Value()))
      ensures defaultsBuffer == old(defaultsBuffer) || (r == SUCCESS && fresh(defaultsBuffer))
      ensures if r == SUCCESS then defaultsBuffer != null && fresh(defaultsBuffer) && defaultsBuffer.Length == size + 1
              else defaultsBuffer == old(defaultsBuffer)
    {
      var buffer, n;
      r, buffer, n := Slurp(file.content, env.calls, size, env.mallocFails);
      if r != SUCCESS {
        return;
      }
      BufferedCStr(buffer[..], file.content[..n]);
      assert '\0' in buffer[..] by {
        assert buffer[..][n] == '\0';
      }
      LoadBuffer(buffer);
      defaultsBuffer := buffer;
      r := SUCCESS;
    }

    /** `cfg_init(cfg, flags, argc, argv)`: the debug options first, so that
        loading the file can already be traced, then the file, then all
        the arguments again; a failure resets the record. */
    method Init(args: seq<string>, env: Env) returns (r: int)
      modifies this
      ensures (r, Value()) == Initialized(env, args)
      ensures r != SUCCESS ==> defaultsBuffer == null
    {
      Reset();
      var configPath := FirstPass(args);
      r := LoadDefaults(configPath, env);
      if r == SUCCESS {
        SecondPass(args);
      } else {
        Free();
      }
    }

    /** The first loop of `cfg_init`: the last `conf=` is remembered, and
        every other argument is given to `cfg_load_arg_debug`. */
    method FirstPass(args: seq<string>) returns (configPath: Option<string>)
      modifies this
      ensures configPath == ConfPath(args)
      ensures Value() == DebugAll(old(Value()), Others(args))
      ensures defaultsBuffer == old(defaultsBuffer)
    {
      configPath := None;
      ghost var o0 := Value();
      for i := 0 to |args|
        invariant configPath == ConfPath(args[..i])
        invariant Value() == DebugAll(o0, Others(args[..i]))
        invariant defaultsBuffer == old(defaultsBuffer)
      {
        assert args[..i + 1][..i] == args[..i] && args[..i + 1][i] == args[i];
        ghost var os := Others(args[..i]);
        if IsConf(args[i]) {
          configPath := Some(args[i][5..]);
          assert Others(args[..i + 1]) == os + [] == os;
        } else {
          LoadArgDebug(args[i]);
          assert Others(args[..i + 1]) == os + [args[i]];
          assert (os + [args[i]])[..|os|] == os;
        }
      }
      assert args[..|args|] == args;
    }

    /** The last loop of `cfg_init`: every argument except `conf=` is
        given to `cfg_load_arg`, over what the file left. */
    method SecondPass(args: seq<string>)
      modifies this
      ensures Value() == ApplyAll(old(Value()), Others(args))
      ensures defaultsBuffer == old(defaultsBuffer)
    {
      ghost var o1 := Value();
      for i := 0 to |args|
        invariant Value() == ApplyAll(o1, Others(args[..i]))
        invariant defaultsBuffer == old(defaultsBuffer)
      {
        assert args[..i + 1][..i] == args[..i] && args[..i + 1][i] == args[i];
        ghost var os := Others(args[..i]);
        if IsConf(args[i]) {
          assert Others(args[..i + 1]) == os + [] == os;
        } else {
          LoadArg(args[i]);
          assert Others(args[..i + 1]) == os + [args[i]];
          ApplyAllAppend(o1, os, [args[i]]);
        }
      }
      assert args[..|args|] == args;
    }

    /** `cfg_free(cfg)`: the buffer is released and the record reset. */
    method Free()
      modifies this
      ensures Value() == Defaults && defaultsBuffer == null
    {
      defaultsBuffer := null;
      Reset();
    }
  }

  // ---- what the order of cfg_init guarantees ---------------------------------------

  /** An option given as a module argument wins over the file: when some
      argument other than `conf=` sets field `f`, a successful `cfg_init`
      leaves in `f` what the arguments alone would leave, whatever the
      file set. */
  lemma ArgumentsOverrideFile(d: (int, Options), args: seq<string>, f: Field, i: nat)
    requires d.0 == SUCCESS
    requires i < |args| && !IsConf(args[i]) && Sets(args[i], f)
    ensures Finish(d, args).0 == SUCCESS
    ensures Get(Finish(d, args).1, f) == Get(ApplyAll(Defaults, Others(args)), f)
  {
    OthersAre(args);
    assert args[i] in Others(args);
    AssignedOverrides(d.1, Defaults, Others(args), f);
  }

  /** A field that no argument sets keeps what the file gave it. */
  lemma FileSettingSurvives(d: (int, Options), args: seq<string>, f: Field)
    requires d.0 == SUCCESS
    requires forall i :: 0 <= i < |args| && !IsConf(args[i]) ==> !Sets(args[i], f)
    ensures Get(Finish(d, args).1, f) == Get(d.1, f)
  {
    OthersAre(args);
    var os := Others(args);
    forall j | 0 <= j < |os|
      ensures !Sets(os[j], f)
    {
      assert os[j] in os;
    }
    UntouchedSurvives(d.1, os, f);
  }

  // ---- cfg_init in the situations the system meets ----------------------------------

  /** The default file may be missing: with no `conf=` argument, a missing
      component on a safe way to `CFG_DEFAULT_PATH` makes `cfg_init`
      succeed with the arguments alone. */
  lemma DefaultFileMayBeMissing(env: Env, args: seq<string>, j: nat)
    requires forall i :: 0 <= i < |args| ==> !IsConf(args[i])
    requires !env.strdupFails && RootOpens(env.fs)
    requires j < |Components(DEFAULT_PATH)| && Prefix(Components(DEFAULT_PATH), j) !in env.fs
    requires DirsSafe(env.fs, Components(DEFAULT_PATH), 0, j, env.testing)
    ensures Initialized(env, args) == (SUCCESS, ApplyAll(DebugAll(Defaults, args), args))
  {
    NoConfPath(args);
    MissingIsSuccess(env.fs, DEFAULT_PATH, env.testing, j);
  }

  /** A file named by `conf=` must exist: when it is missing `cfg_init`
      fails with `PAM_SERVICE_ERR` and leaves the reset record. */
  lemma NamedFileMustExist(env: Env, args: seq<string>, path: string, j: nat)
    requires ConfPath(args) == Some(path) && WellShaped(path)
    requires !env.strdupFails && RootOpens(env.fs)
    requires j < |Components(path)| && Prefix(Components(path), j) !in env.fs
    requires DirsSafe(env.fs, Components(path), 0, j, env.testing)
    ensures Initialized(env, args) == (SERVICE_ERR, Defaults)
  {
    MissingIsSuccess(env.fs, path, env.testing, j);
  }

  /** A file that `open_safely` refuses fails `cfg_init` with the code of
      `open_safely`, whatever the arguments set. */
  lemma RefusedFileFails(env: Env, args: seq<string>)
    requires Resolve(env.fs, ChosenPath(ConfPath(args)), env.testing, env.strdupFails).code != SUCCESS
    ensures Initialized(env, args) ==
              (Resolve(env.fs, ChosenPath(ConfPath(args)), env.testing, env.strdupFails).code, Defaults)
  {
  }

  /** A file that is read whole is applied between the two passes over
      the arguments: first the debug options of the arguments, then every
      non-empty line of the file, packed, in order, then every argument
      except `conf=`. */
  lemma FileBetweenArguments(env: Env, args: seq<string>, n: Node, bytes: seq<char>)
    requires Resolve(env.fs, ChosenPath(ConfPath(args)), env.testing, env.strdupFails) == Resolved(SUCCESS, Some(n))
    requires n.size > 0 && SlurpResult(n.content, env.calls, n.size, env.mallocFails) == Loaded(bytes)
    ensures Initialized(env, args) ==
              (SUCCESS, ApplyAll(ApplyAll(DebugAll(Defaults, Others(args)), FileText(CStr(bytes))), Others(args)))
  {
    ReplayIsApplyAll(DebugAll(Defaults, Others(args)), Tokens(CStr(bytes), '\n'));
  }
}
