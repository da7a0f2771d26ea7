/**
  The command-line command tree: splitting the arguments of one command
  into its own options, a subcommand name and the subcommand's arguments,
  the command's full name, and the decisions `run` takes before handing
  control to `run_impl` or to a nested command.

  Arguments are strings; option parsing (`extract_opts`), `proceed` and the
  nested commands' own runs are parameters, since they belong to the
  subclasses and the messaging library.
 */
module Command {
  import opened Wrappers

  /** The three parts `separate_args` returns. */
  datatype Split = Split(before: seq<string>, sub: string, after: seq<string>)

  /** A token starting with "--": a long option, skipped alone. */
  predicate IsLongOption(t: string) {
    |t| >= 2 && t[..2] == "--"
  }

  /** A token starting with "-": an option; unless it is long, it is assumed
      to take the next token as its argument. */
  predicate IsOption(t: string) {
    |t| >= 1 && t[0] == '-'
  }

  /** What `separate_args` returns when it reaches no subcommand. */
  function NoSubcommand(args: seq<string>): Split {
    Split(args, "", [])
  }

  /** `separate_args`: scan from the front, skipping long options by one
      token and short options by two, and stop at the first other token.
      When the scan runs off the end, possibly by overshooting on a short
      option at the very end, there is no subcommand. Otherwise the three
      parts rebuild the input. */
  function SeparateArgs(args: seq<string>): (r: Split)
    ensures r == NoSubcommand(args) <==> forall k: nat :: !SubcommandAt(args, k)
    ensures r != NoSubcommand(args) ==> SubcommandAt(args, |r.before|) && r.before + [r.sub] + r.after == args
  {
    SeparateArgsSound(args);
    SeparateFrom(args, 0)
  }

  /** When the token at `k` is the subcommand, `separate_args` splits there. */
  lemma SeparateArgsAt(args: seq<string>, k: nat)
    requires SubcommandAt(args, k)
    ensures SeparateArgs(args) == Split(args[..k], args[k], args[k + 1..])
  {
    assert args[0..k] == args[..k];
    SeparateFromFound(args, 0, k);
  }

  function SeparateFrom(args: seq<string>, pos: nat): Split
    decreases |args| - pos
  {
    if pos >= |args| then NoSubcommand(args)
    else if IsLongOption(args[pos]) then SeparateFrom(args, pos + 1)
    else if IsOption(args[pos]) then SeparateFrom(args, pos + 2)
    else Split(args[..pos], args[pos], args[pos + 1..])
  }

  /** The tokens a scan consumes as options: a sequence of long options and
      of short options each followed by one argument token. */
  predicate OptionList(opts: seq<string>)
    decreases |opts|
  {
    || |opts| == 0
    || (IsLongOption(opts[0]) && OptionList(opts[1..]))
    || (!IsLongOption(opts[0]) && IsOption(opts[0]) && |opts| >= 2 && OptionList(opts[2..]))
  }

  /** The subcommand is the token at `k` when the tokens before it form an
      option list and it is not itself an option. */
  predicate SubcommandAt(args: seq<string>, k: nat) {
    k < |args| && OptionList(args[..k]) && !IsOption(args[k])
  }

  lemma {:induction false} SeparateFromFound(args: seq<string>, pos: nat, k: nat)
    requires pos <= k < |args| && OptionList(args[pos..k]) && !IsOption(args[k])
    ensures SeparateFrom(args, pos) == Split(args[..k], args[k], args[k + 1..])
    decreases k - pos
  {
    var opts := args[pos..k];
    if pos < k {
      assert opts[0] == args[pos];
      if IsLongOption(args[pos]) {
        assert opts[1..] == args[pos + 1..k];
        SeparateFromFound(args, pos + 1, k);
      } else {
        assert opts[2..] == args[pos + 2..k];
        SeparateFromFound(args, pos + 2, k);
      }
    }
  }

  lemma {:induction false} SeparateFromSound(args: seq<string>, pos: nat)
    ensures var r := SeparateFrom(args, pos);
      || r == NoSubcommand(args)
      || (pos <= |r.before| < |args| && !IsOption(args[|r.before|]) && OptionList(args[pos..|r.before|])
          && r == Split(args[..|r.before|], args[|r.before|], args[|r.before| + 1..]))
    decreases |args| - pos
  {
    if pos < |args| {
      var r := SeparateFrom(args, pos);
      if IsLongOption(args[pos]) {
        SeparateFromSound(args, pos + 1);
        if r != NoSubcommand(args) {
          var k := |r.before|;
          OptionListCons(args, pos, k, 1);
        }
      } else if IsOption(args[pos]) {
        SeparateFromSound(args, pos + 2);
        if r != NoSubcommand(args) {
          var k := |r.before|;
          OptionListCons(args, pos, k, 2);
        }
      } else {
        assert args[pos..pos] == [];
      }
    }
  }

  lemma OptionListCons(args: seq<string>, pos: nat, k: nat, step: nat)
    requires step == 1 || step == 2
    requires pos + step <= k <= |args|
    requires step == 1 ==> IsLongOption(args[pos])
    requires step == 2 ==> !IsLongOption(args[pos]) && IsOption(args[pos])
    requires OptionList(args[pos + step..k])
    ensures OptionList(args[pos..k])
  {
    var opts := args[pos..k];
    assert opts[0] == args[pos];
    assert opts[step..] == args[pos + step..k];
  }

  lemma SeparateArgsSound(args: seq<string>)
    ensures var r := SeparateFrom(args, 0);
      && (r == NoSubcommand(args) <==> forall k: nat :: !SubcommandAt(args, k))
      && (r != NoSubcommand(args) ==> SubcommandAt(args, |r.before|) && r.before + [r.sub] + r.after == args)
  {
    SeparateFromSound(args, 0);
    var r := SeparateFrom(args, 0);
    assert args[0..|r.before|] == args[..|r.before|];
    if r == NoSubcommand(args) {
      forall k: nat | SubcommandAt(args, k)
        ensures false
      {
        assert args[0..k] == args[..k];
        SeparateFromFound(args, 0, k);
      }
    } else {
      assert SubcommandAt(args, |r.before|);
      assert r.before + [r.sub] + r.after == args;
    }
  }

  /** A command: a root without parent, or a child registered under a name
      with its parent. A root built with a name keeps it, but its full name
      ignores it. */
  datatype Cmd = Root(name: string) | Child(parent: Cmd, name: string)

  /** `is_root`: the command has no parent, so no names lead to it from the
      root and its full name is empty. */
  predicate IsRoot(c: Cmd): (r: bool)
    ensures r <==> Path(c) == []
    ensures r ==> FullName(c) == ""
  {
    c.Root?
  }

  /** `full_name`: empty for a root; otherwise the parent's full name, a
      space if that is non-empty, and the command's own name. */
  function FullName(c: Cmd): (r: string)
    ensures c.Root? ==> r == ""
    ensures c.Child? ==> |c.name| <= |r| && r[|r| - |c.name|..] == c.name
    ensures c.Child? && c.parent.Root? ==> r == c.name
  {
    match c
    case Root(_) => ""
    case Child(p, n) =>
      var s := FullName(p);
      if s == "" then n else s + " " + n
  }

  /** The names from below the root down to the command. */
  function Path(c: Cmd): seq<string> {
    match c
    case Root(_) => []
    case Child(p, n) => Path(p) + [n]
  }

  /** Space-separated join of words. */
  function Join(words: seq<string>): string
    decreases |words|
  {
    if |words| == 0 then ""
    else if |words| == 1 then words[0]
    else words[0] + " " + Join(words[1..])
  }

  lemma {:induction false} JoinSnoc(words: seq<string>, w: string)
    ensures Join(words + [w]) == if |words| == 0 then w else Join(words) + " " + w
    decreases |words|
  {
    if |words| >= 2 {
      assert (words + [w])[1..] == words[1..] + [w];
      JoinSnoc(words[1..], w);
    } else if |words| == 1 {
      assert (words + [w])[1..] == [w];
    }
  }

  lemma {:induction false} JoinNonEmpty(words: seq<string>)
    requires |words| > 0 && forall i :: 0 <= i < |words| ==> words[i] != ""
    ensures Join(words) != ""
    decreases |words|
  {
    if |words| >= 2 {
      assert |Join(words)| >= |words[0]|;
    }
  }

  /** With non-empty command names, the full name is the names on the path
      from the root, joined by single spaces; a root's full name is empty. */
  lemma {:induction false} FullNameIsJoin(c: Cmd)
    requires forall i :: 0 <= i < |Path(c)| ==> Path(c)[i] != ""
    ensures FullName(c) == Join(Path(c))
  {
    match c
    case Root(_) =>
    case Child(p, n) =>
      assert Path(c) == Path(p) + [n];
      assert forall i :: 0 <= i < |Path(p)| ==> Path(p)[i] == Path(c)[i];
      FullNameIsJoin(p);
      JoinSnoc(Path(p), n);
      if |Path(p)| > 0 {
        JoinNonEmpty(Path(p));
      }
  }

  /** What `extract_opts` reports about this command's own arguments:
      whether "help" was given, and the unparsed remainder. */
  datatype Extracted = Extracted(help: bool, remainder: seq<string>)

  /** What `proceed` decides. */
  datatype ProceedResult = ProceedOk | StopSuccessful | StopWithError

  /** Process exit codes. */
  datatype Exit = ExitSuccess | ExitFailure

  /** Where `run` leaves off: an exit code, a call of `run_impl` or of a
      nested command with the given arguments, or the failed assertion that
      a missing subcommand leaves no subcommand arguments. */
  datatype Step =
    | Exited(code: Exit)
    | CallRunImpl(args: seq<string>)
    | CallNested(name: string, args: seq<string>)
    | AssertionViolated

  /** `run`: split the arguments; answer help; let `proceed` stop the run;
      without a subcommand call `run_impl` with no arguments; a command
      without nested commands hands the subcommand and its arguments to
      `run_impl`; otherwise dispatch to the named nested command, failing on
      an unknown name. */
  function Run(args: seq<string>, extract: seq<string> -> Extracted, proceed: seq<string> -> ProceedResult,
               nested: set<string>): (r: Step)
    ensures extract(SeparateArgs(args).before).help ==> r == Exited(ExitSuccess)
    ensures r.CallNested? ==> r.name in nested && r.name == SeparateArgs(args).sub && r.args == SeparateArgs(args).after
    ensures r.CallRunImpl? && r.args != [] ==> nested == {} && r.args == [SeparateArgs(args).sub] + SeparateArgs(args).after
    ensures r == AssertionViolated ==> SeparateArgs(args).sub == "" && SeparateArgs(args).after != []
    ensures r == Exited(ExitFailure) ==>
      proceed(extract(SeparateArgs(args).before).remainder) == StopWithError || SeparateArgs(args).sub !in nested
  {
    var parts := SeparateArgs(args);
    var opts := extract(parts.before);
    if opts.help then Exited(ExitSuccess)
    else match proceed(opts.remainder)
      case StopSuccessful => Exited(ExitSuccess)
      case StopWithError => Exited(ExitFailure)
      case ProceedOk =>
        if parts.sub == "" then
          if parts.after != [] then AssertionViolated else CallRunImpl([])
        else if nested == {} then CallRunImpl([parts.sub] + parts.after)
        else if parts.sub !in nested then Exited(ExitFailure)
        else CallNested(parts.sub, parts.after)
  }

  /** The default `proceed`: always go on. */
  function DefaultProceed(args: seq<string>): ProceedResult {
    ProceedOk
  }

  /** The default `run_impl`: print usage and fail. */
  function DefaultRunImpl(args: seq<string>): Exit {
    ExitFailure
  }

  /** A command that overrides neither `proceed` nor `run_impl` and has no
      nested commands fails whenever help is not asked for: the default
      `proceed` lets the run go on, and it either reaches the default
      `run_impl`, which fails, or violates the missing-subcommand assertion. */
  lemma DefaultCommandFails(args: seq<string>, extract: seq<string> -> Extracted)
    requires !extract(SeparateArgs(args).before).help
    ensures var s := Run(args, extract, DefaultProceed, {});
      (s.CallRunImpl? && DefaultRunImpl(s.args) == ExitFailure) || s == AssertionViolated
  {
  }

  /** Help wins over everything after it, whatever the arguments: once
      `extract_opts` reports "help" for this command's own options, the run
      succeeds before `proceed`, `run_impl` or any nested command. */
  lemma RunHelpFirst(args: seq<string>, extract: seq<string> -> Extracted, proceed: seq<string> -> ProceedResult,
                     nested: set<string>)
    requires extract(SeparateArgs(args).before).help
    ensures Run(args, extract, proceed, nested) == Exited(ExitSuccess)
  {
  }

  /** Without help, `proceed` can stop the run with either exit code,
      whatever the arguments, before any subcommand is looked at. */
  lemma RunProceedStops(args: seq<string>, extract: seq<string> -> Extracted, proceed: seq<string> -> ProceedResult,
                        nested: set<string>)
    requires !extract(SeparateArgs(args).before).help
    requires proceed(extract(SeparateArgs(args).before).remainder) != ProceedOk
    ensures Run(args, extract, proceed, nested)
      == Exited(if proceed(extract(SeparateArgs(args).before).remainder) == StopSuccessful then ExitSuccess else ExitFailure)
  {
  }

  /** `--help` alone: the long option is skipped, so there is no subcommand,
      and the whole argument list goes to `extract_opts`. */
  lemma HelpAlone(extract: seq<string> -> Extracted, proceed: seq<string> -> ProceedResult, nested: set<string>)
    requires extract(["--help"]).help
    ensures Run(["--help"], extract, proceed, nested) == Exited(ExitSuccess)
  {
    var args := ["--help"];
    assert IsLongOption(args[0]);
    assert SeparateFrom(args, 1) == NoSubcommand(args);
    assert SeparateArgs(args) == NoSubcommand(args);
  }

  /** With no subcommand among the arguments, `run_impl` gets no arguments,
      even when options were left unparsed. */
  lemma RunWithoutSubcommand(args: seq<string>, extract: seq<string> -> Extracted,
                             proceed: seq<string> -> ProceedResult, nested: set<string>)
    requires forall k: nat :: !SubcommandAt(args, k)
    requires !extract(args).help && proceed(extract(args).remainder) == ProceedOk
    ensures Run(args, extract, proceed, nested) == CallRunImpl([])
  {
  }

  /** A command without nested commands hands everything from the
      subcommand token on to `run_impl`; with the default `run_impl` the
      run fails. */
  lemma RunLeaf(args: seq<string>, extract: seq<string> -> Extracted, proceed: seq<string> -> ProceedResult, k: nat)
    requires SubcommandAt(args, k) && args[k] != "" && !extract(args[..k]).help
    requires proceed(extract(args[..k]).remainder) == ProceedOk
    ensures Run(args, extract, proceed, {}) == CallRunImpl(args[k..])
    ensures DefaultRunImpl(args[k..]) == ExitFailure
  {
    SeparateArgsAt(args, k);
    assert [args[k]] + args[k + 1..] == args[k..];
  }

  /** A known subcommand receives exactly the tokens after its name. */
  lemma RunDispatch(args: seq<string>, extract: seq<string> -> Extracted, proceed: seq<string> -> ProceedResult,
                    nested: set<string>, k: nat)
    requires SubcommandAt(args, k) && args[k] != "" && args[k] in nested && !extract(args[..k]).help
    requires proceed(extract(args[..k]).remainder) == ProceedOk
    ensures Run(args, extract, proceed, nested) == CallNested(args[k], args[k + 1..])
  {
    SeparateArgsAt(args, k);
  }

  /** An unknown subcommand fails when nested commands exist. */
  lemma RunUnknownSubcommand(args: seq<string>, extract: seq<string> -> Extracted,
                             proceed: seq<string> -> ProceedResult, nested: set<string>, k: nat)
    requires SubcommandAt(args, k) && args[k] != "" && nested != {} && args[k] !in nested
    requires !extract(args[..k]).help && proceed(extract(args[..k]).remainder) == ProceedOk
    ensures Run(args, extract, proceed, nested) == Exited(ExitFailure)
  {
    SeparateArgsAt(args, k);
  }

  /** An empty token is not an option, so it is taken as the subcommand; but
      its name is empty, so `run` treats it as missing and the assertion
      that nothing follows fails whenever another token does. */
  lemma EmptySubcommandToken(args: seq<string>, extract: seq<string> -> Extracted,
                             proceed: seq<string> -> ProceedResult, nested: set<string>, k: nat)
    requires SubcommandAt(args, k) && args[k] == "" && !extract(args[..k]).help
    requires proceed(extract(args[..k]).remainder) == ProceedOk
    ensures Run(args, extract, proceed, nested)
      == if k + 1 < |args| then AssertionViolated else CallRunImpl([])
  {
    SeparateArgsAt(args, k);
  }
}
