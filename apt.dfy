/** The apt wrapper: the command lines it builds, the rule that picks
    which packages `install_packages` installs, and the output it returns.
    Running a command is abstracted to a `Shell` that records every command
    issued and answers each with a fixed response function. */
module Apt {
  import opened PyText

  /** The apt binary; it has to be on the path. */
  const APT_BIN := "apt"

  /** What `run` returns: the command's output, or `False` when it exits
      with an error. */
  datatype RunResult = Output(text: string) | Failed

  /** `f'{r}'`: a failure is formatted as the text "False". */
  function Show(r: RunResult): string {
    match r
    case Output(text) => text
    case Failed => "False"
  }

  // ---------------------------------------------------------------------
  // Command lines

  datatype Command = Install(package: string) | Reinstall(package: string) | Update

  /** The argument list each command runs. */
  function Argv(bin: string, c: Command): seq<string> {
    match c
    case Install(p) => [bin, "-y", "install", p]
    case Reinstall(p) => [bin, "-y", "install", "--reinstall", p]
    case Update => [bin, "update", "-y"]
  }

  /** Which command an argument list is, if any. */
  function Parse(bin: string, argv: seq<string>): (r: Option<Command>)
    ensures r.Some? ==> Argv(bin, r.value) == argv
  {
    if argv == [bin, "update", "-y"] then Some(Update)
    else if |argv| == 4 && argv[..3] == [bin, "-y", "install"] then
      assert argv == [bin, "-y", "install", argv[3]];
      Some(Install(argv[3]))
    else if |argv| == 5 && argv[..4] == [bin, "-y", "install", "--reinstall"] then
      assert argv == [bin, "-y", "install", "--reinstall", argv[4]];
      Some(Reinstall(argv[4]))
    else None
  }

  /** Every command line reads back as the command it was built from, so
      no two commands share a command line. */
  lemma ParseArgv(bin: string, c: Command)
    ensures Parse(bin, Argv(bin, c)) == Some(c)
  {
    var argv := Argv(bin, c);
    match c
    case Install(p) =>
      assert argv[..3] == [bin, "-y", "install"];
      assert |argv| != 3;
    case Reinstall(p) =>
      assert argv[..4] == [bin, "-y", "install", "--reinstall"];
      assert |argv| != 3 && |argv| != 4;
    case Update =>
  }

  lemma ArgvInjective(bin: string, c: Command, d: Command)
    requires Argv(bin, c) == Argv(bin, d)
    ensures c == d
  {
    ParseArgv(bin, c);
    ParseArgv(bin, d);
  }

  // ---------------------------------------------------------------------
  // Package selection

  /** The selection rule of `install_packages`: an excluded package is
      skipped, and so, when `only` is given, is a package not in it. */
  predicate Selected(p: string, only: Option<seq<string>>, exclude: Option<seq<string>>) {
    !(exclude.Some? && p in exclude.value) && !(only.Some? && p !in only.value)
  }

  /** The packages `install_packages` installs, in input order. */
  function Chosen(packages: seq<string>, only: Option<seq<string>>, exclude: Option<seq<string>>): (r: seq<string>)
    ensures |r| <= |packages|
  {
    if packages == [] then []
    else
      var rest := Chosen(packages[1..], only, exclude);
      if Selected(packages[0], only, exclude) then [packages[0]] + rest else rest
  }

  /** A package is installed exactly when it is listed and selected. */
  lemma {:induction false} ChosenMembers(packages: seq<string>, only: Option<seq<string>>,
                                         exclude: Option<seq<string>>, p: string)
    ensures p in Chosen(packages, only, exclude) <==> p in packages && Selected(p, only, exclude)
  {
    if packages != [] {
      ChosenMembers(packages[1..], only, exclude, p);
      assert p in packages <==> p == packages[0] || p in packages[1..];
    }
  }

  /** An excluded package is never installed, whatever `only` says. */
  lemma ExcludeWins(packages: seq<string>, only: Option<seq<string>>, exclude: seq<string>, p: string)
    requires p in exclude
    ensures p !in Chosen(packages, only, Some(exclude))
  {
    ChosenMembers(packages, only, Some(exclude), p);
  }

  /** With neither list given, every package is installed, in order. */
  lemma {:induction false} NoListsTakesAll(packages: seq<string>)
    ensures Chosen(packages, None, None) == packages
  {
    if packages != [] {
      NoListsTakesAll(packages[1..]);
    }
  }

  /** Selection keeps input order: one more package adds itself at the
      end exactly when it is selected. */
  lemma {:induction false} ChosenSnoc(packages: seq<string>, p: string,
                                      only: Option<seq<string>>, exclude: Option<seq<string>>)
    ensures Chosen(packages + [p], only, exclude)
      == Chosen(packages, only, exclude) + (if Selected(p, only, exclude) then [p] else [])
  {
    var tail := if Selected(p, only, exclude) then [p] else [];
    if packages == [] {
      assert packages + [p] == [p];
      assert Chosen([p][1..], only, exclude) == [];
    } else {
      var rest := packages[1..];
      assert (packages + [p])[0] == packages[0];
      assert (packages + [p])[1..] == rest + [p];
      ChosenSnoc(rest, p, only, exclude);
      if Selected(packages[0], only, exclude) {
        AppendAssoc([packages[0]], Chosen(rest, only, exclude), tail);
      }
    }
  }

  // ---------------------------------------------------------------------
  // Output

  /** The output after appending each install output in turn to `acc`. */
  function Accumulate(acc: RunResult, outputs: seq<RunResult>): RunResult
    decreases |outputs|
  {
    if outputs == [] then acc else Accumulate(Output(Show(acc) + Show(outputs[0])), outputs[1..])
  }

  function ShowAll(outputs: seq<RunResult>): string {
    if outputs == [] then [] else Show(outputs[0]) + ShowAll(outputs[1..])
  }

  /** The result is the first output unchanged when nothing follows it, and
      otherwise the text of every output, in order. */
  lemma {:induction false} AccumulateText(acc: RunResult, outputs: seq<RunResult>)
    ensures outputs == [] ==> Accumulate(acc, outputs) == acc
    ensures outputs != [] ==> Accumulate(acc, outputs) == Output(Show(acc) + ShowAll(outputs))
    decreases |outputs|
  {
    if outputs != [] {
      var head := Output(Show(acc) + Show(outputs[0]));
      AccumulateText(head, outputs[1..]);
      AppendAssoc(Show(acc), Show(outputs[0]), ShowAll(outputs[1..]));
      if outputs[1..] == [] {
        AppendEmpty(Show(acc) + Show(outputs[0]));
      }
    }
  }

  function InstallAll(bin: string, packages: seq<string>): (r: seq<seq<string>>)
    ensures |r| == |packages|
    ensures forall i :: 0 <= i < |r| ==> r[i] == Argv(bin, Install(packages[i]))
  {
    if packages == [] then [] else [Argv(bin, Install(packages[0]))] + InstallAll(bin, packages[1..])
  }

  function Responses(respond: seq<string> -> RunResult, commands: seq<seq<string>>): (r: seq<RunResult>)
    ensures |r| == |commands|
    ensures forall i :: 0 <= i < |r| ==> r[i] == respond(commands[i])
  {
    if commands == [] then [] else [respond(commands[0])] + Responses(respond, commands[1..])
  }

  /** The commands `install_packages` issues: the update, then one
      install per chosen package. */
  function Issued(bin: string, packages: seq<string>, only: Option<seq<string>>,
                  exclude: Option<seq<string>>): seq<seq<string>> {
    [Argv(bin, Update)] + InstallAll(bin, Chosen(packages, only, exclude))
  }

  /** The update runs first and only once; every later command installs
      the next chosen package. */
  lemma UpdateFirstOnce(bin: string, packages: seq<string>, only: Option<seq<string>>,
                        exclude: Option<seq<string>>)
    ensures var log := Issued(bin, packages, only, exclude);
      && |log| == 1 + |Chosen(packages, only, exclude)|
      && Parse(bin, log[0]) == Some(Update)
      && forall i :: 1 <= i < |log| ==>
           Parse(bin, log[i]) == Some(Install(Chosen(packages, only, exclude)[i - 1]))
  {
    var log := Issued(bin, packages, only, exclude);
    var chosen := Chosen(packages, only, exclude);
    ParseArgv(bin, Update);
    forall i | 1 <= i < |log|
      ensures Parse(bin, log[i]) == Some(Install(chosen[i - 1]))
    {
      assert log[i] == InstallAll(bin, chosen)[i - 1];
      ParseArgv(bin, Install(chosen[i - 1]));
    }
  }

  /** What `install_packages` returns when each command gets its response
      from `respond`. */
  function Expected(respond: seq<string> -> RunResult, bin: string, packages: seq<string>,
                    only: Option<seq<string>>, exclude: Option<seq<string>>): RunResult {
    Accumulate(respond(Argv(bin, Update)),
      Responses(respond, InstallAll(bin, Chosen(packages, only, exclude))))
  }

  /** `echo`: its arguments separated by blanks, then a newline. */
  function Echo(argv: seq<string>): RunResult {
    Output((if |argv| >= 2 then Join(argv[1..], ' ') else "") + "\n")
  }

  /** `echo` never prints its own name, so the output does not depend on
      which binary the commands name: the test's rebinding of the binary to
      `echo` gives the output `install_packages` produces with `APT_BIN`
      under an echoing shell. */
  lemma EchoArgv(b1: string, b2: string, c: Command)
    ensures Echo(Argv(b1, c)) == Echo(Argv(b2, c))
  {
    assert Argv(b1, c)[1..] == Argv(b2, c)[1..];
  }

  lemma EchoAnyBinary(bin: string, packages: seq<string>, only: Option<seq<string>>,
                      exclude: Option<seq<string>>)
    ensures Expected(Echo, bin, packages, only, exclude) == Expected(Echo, "echo", packages, only, exclude)
  {
    var chosen := Chosen(packages, only, exclude);
    var xs := Responses(Echo, InstallAll(bin, chosen));
    var ys := Responses(Echo, InstallAll("echo", chosen));
    forall i | 0 <= i < |xs| ensures xs[i] == ys[i] {
      EchoArgv(bin, "echo", Install(chosen[i]));
    }
    assert xs == ys;
    EchoArgv(bin, "echo", Update);
  }

  lemma EchoUpdate()
    ensures Echo(Argv("echo", Update)) == Output("update -y\n")
  {
    var argv := Argv("echo", Update);
    assert argv[1..] == ["update", "-y"];
    assert Join(["update", "-y"][1..], ' ') == "-y";
  }

  lemma EchoInstall(p: string)
    ensures Echo(Argv("echo", Install(p))) == Output("-y install " + p + "\n")
  {
    var argv := Argv("echo", Install(p));
    var words := ["-y", "install", p];
    assert argv[1..] == words;
    assert words[1..][1..] == [p];
    assert Join(words[1..], ' ') == "install" + " " + p;
    assert Join(words, ' ') == "-y" + " " + ("install" + " " + p);
    assert "-y" + " " + ("install" + " " + p) + "\n" == "-y install " + p + "\n";
  }

  lemma EchoReinstall(p: string)
    ensures Echo(Argv("echo", Reinstall(p))) == Output("-y install --reinstall " + p + "\n")
  {
    var argv := Argv("echo", Reinstall(p));
    var words := ["-y", "install", "--reinstall", p];
    assert argv[1..] == words;
    assert words[1..][1..][1..] == [p];
    assert Join(words[1..][1..], ' ') == "--reinstall" + " " + p;
    assert Join(words[1..], ' ') == "install" + " " + ("--reinstall" + " " + p);
    assert Join(words, ' ') == "-y" + " " + ("install" + " " + ("--reinstall" + " " + p));
    assert "-y" + " " + ("install" + " " + ("--reinstall" + " " + p)) + "\n"
      == "-y install --reinstall " + p + "\n";
  }

  lemma EchoPackage(p: string, line: string)
    requires line == "-y install " + p + "\n"
    ensures Show(Echo(Argv("echo", Install(p)))) == line
  {
    EchoInstall(p);
  }

  lemma EchoInstalls()
    ensures ShowAll(Responses(Echo, InstallAll("echo", ["pkg1", "pkg2"])))
      == "-y install pkg1\n" + "-y install pkg2\n"
  {
    var packages := ["pkg1", "pkg2"];
    var installs := InstallAll("echo", packages);
    var outs := Responses(Echo, installs);
    assert installs[0] == Argv("echo", Install("pkg1"));
    assert installs[1] == Argv("echo", Install("pkg2"));
    EchoPackage("pkg1", "-y install pkg1\n");
    EchoPackage("pkg2", "-y install pkg2\n");
    ShowAllTwo(outs);
  }

  lemma ShowAllTwo(outs: seq<RunResult>)
    requires |outs| == 2
    ensures ShowAll(outs) == Show(outs[0]) + Show(outs[1])
  {
    var rest := outs[1..];
    assert rest[0] == outs[1] && rest[1..] == [];
    assert ShowAll(rest[1..]) == [];
    assert ShowAll(rest) == Show(rest[0]) + ShowAll(rest[1..]);
    AppendEmpty(Show(outs[1]));
  }

  /** With `echo` as the binary, two packages give the update line
      followed by one install line each. */
  lemma EchoTwoPackages()
    ensures Expected(Echo, "echo", ["pkg1", "pkg2"], None, None)
      == Output("update -y\n" + "-y install pkg1\n" + "-y install pkg2\n")
  {
    var packages := ["pkg1", "pkg2"];
    NoListsTakesAll(packages);
    var outs := Responses(Echo, InstallAll("echo", packages));
    EchoUpdate();
    EchoInstalls();
    AccumulateText(Output("update -y\n"), outs);
    AppendAssoc("update -y\n", "-y install pkg1\n", "-y install pkg2\n");
  }

  // ---------------------------------------------------------------------
  // Running

  /** The environment commands run in: `respond` gives each command's
      result, and `issued` records the commands run so far. */
  class Shell {
    const respond: seq<string> -> RunResult
    var issued: seq<seq<string>>

    constructor(respond: seq<string> -> RunResult)
      ensures this.respond == respond && issued == []
    {
      this.respond := respond;
      issued := [];
    }

    /** `run`: the command's output or `False`. */
    method Run(command: seq<string>) returns (r: RunResult)
      modifies this
      ensures issued == old(issued) + [command]
      ensures r == respond(command)
    {
      issued := issued + [command];
      r := respond(command);
    }
  }

  method InstallUpgrade(shell: Shell, package: string) returns (r: RunResult)
    modifies shell
    ensures shell.issued == old(shell.issued) + [Argv(APT_BIN, Install(package))]
    ensures r == shell.respond(Argv(APT_BIN, Install(package)))
  {
    r := shell.Run([APT_BIN, "-y", "install", package]);
  }

  method DoReinstall(shell: Shell, package: string) returns (r: RunResult)
    modifies shell
    ensures shell.issued == old(shell.issued) + [Argv(APT_BIN, Reinstall(package))]
    ensures r == shell.respond(Argv(APT_BIN, Reinstall(package)))
  {
    r := shell.Run([APT_BIN, "-y", "install", "--reinstall", package]);
  }

  method DoUpdate(shell: Shell) returns (r: RunResult)
    modifies shell
    ensures shell.issued == old(shell.issued) + [Argv(APT_BIN, Update)]
    ensures r == shell.respond(Argv(APT_BIN, Update))
  {
    r := shell.Run([APT_BIN, "update", "-y"]);
  }

  /** `install_packages`: update, then install every selected package in
      input order, concatenating the outputs. */
  method InstallPackages(shell: Shell, packages: seq<string>, only: Option<seq<string>>,
                         exclude: Option<seq<string>>) returns (output: RunResult)
    modifies shell
    ensures shell.issued == old(shell.issued) + Issued(APT_BIN, packages, only, exclude)
    ensures output == Expected(shell.respond, APT_BIN, packages, only, exclude)
  {
    ghost var log := shell.issued;
    var update := DoUpdate(shell);
    output := update;
    ghost var done: seq<string> := [];
    for i := 0 to |packages|
      invariant done == Chosen(packages[..i], only, exclude)
      invariant Progress(shell.issued, shell.respond, output, log + [Argv(APT_BIN, Update)], update, done)
    {
      var package := packages[i];
      PrefixStep(packages, i);
      ChosenSnoc(packages[..i], package, only, exclude);
      if exclude.Some? && package in exclude.value {
        AppendEmpty(done);
        continue;
      } else if only.Some? && package !in only.value {
        AppendEmpty(done);
        continue;
      }
      ghost var before := shell.issued;
      var r := InstallUpgrade(shell, package);
      ProgressStep(before, shell.issued, shell.respond, output, log + [Argv(APT_BIN, Update)], update, done, package, r);
      output := Output(Show(output) + Show(r));
      done := done + [package];
    }
    assert packages[..|packages|] == packages;
    ProgressDone(shell.issued, shell.respond, output, log, update, packages, only, exclude);
  }

  /** `test_install_packages`: a shell whose commands echo their
      arguments, asked to install `pkg1` and `pkg2`. */
  method EchoTestRun() returns (output: RunResult)
    ensures output == Output("update -y\n" + "-y install pkg1\n" + "-y install pkg2\n")
  {
    var shell := new Shell(Echo);
    output := InstallPackages(shell, ["pkg1", "pkg2"], None, None);
    EchoAnyBinary(APT_BIN, ["pkg1", "pkg2"], None, None);
    EchoTwoPackages();
  }

  lemma ProgressDone(issued: seq<seq<string>>, respond: seq<string> -> RunResult, output: RunResult,
                     log: seq<seq<string>>, update: RunResult, packages: seq<string>,
                     only: Option<seq<string>>, exclude: Option<seq<string>>)
    requires update == respond(Argv(APT_BIN, Update))
    requires Progress(issued, respond, output, log + [Argv(APT_BIN, Update)], update,
                      Chosen(packages, only, exclude))
    ensures issued == log + Issued(APT_BIN, packages, only, exclude)
    ensures output == Expected(respond, APT_BIN, packages, only, exclude)
  {
    AppendAssoc(log, [Argv(APT_BIN, Update)], InstallAll(APT_BIN, Chosen(packages, only, exclude)));
  }

  /** The loop state of `InstallPackages`: after the update and the
      installs of `done`, what was issued and what was accumulated. */
  ghost predicate Progress(issued: seq<seq<string>>, respond: seq<string> -> RunResult, output: RunResult,
                           prefix: seq<seq<string>>, update: RunResult, done: seq<string>) {
    && issued == prefix + InstallAll(APT_BIN, done)
    && output == Accumulate(update, Responses(respond, InstallAll(APT_BIN, done)))
  }

  lemma ProgressStep(before: seq<seq<string>>, issued: seq<seq<string>>, respond: seq<string> -> RunResult,
                     output: RunResult, prefix: seq<seq<string>>, update: RunResult, done: seq<string>,
                     p: string, r: RunResult)
    requires Progress(before, respond, output, prefix, update, done)
    requires issued == before + [Argv(APT_BIN, Install(p))]
    requires r == respond(Argv(APT_BIN, Install(p)))
    ensures Progress(issued, respond, Output(Show(output) + Show(r)), prefix, update, done + [p])
  {
    var c := Argv(APT_BIN, Install(p));
    InstallAllSnoc(done, p);
    ResponsesSnoc(respond, InstallAll(APT_BIN, done), c);
    AccumulateSnoc(update, Responses(respond, InstallAll(APT_BIN, done)), r);
    AppendAssoc(prefix, InstallAll(APT_BIN, done), [c]);
  }

  lemma InstallAllSnoc(packages: seq<string>, p: string)
    ensures InstallAll(APT_BIN, packages + [p]) == InstallAll(APT_BIN, packages) + [Argv(APT_BIN, Install(p))]
  {
  }

  lemma ResponsesSnoc(respond: seq<string> -> RunResult, commands: seq<seq<string>>, c: seq<string>)
    ensures Responses(respond, commands + [c]) == Responses(respond, commands) + [respond(c)]
  {
  }

  /** Appending one more output to the accumulated result. */
  lemma {:induction false} AccumulateSnoc(acc: RunResult, outputs: seq<RunResult>, r: RunResult)
    ensures Accumulate(acc, outputs + [r]) == Output(Show(Accumulate(acc, outputs)) + Show(r))
    decreases |outputs|
  {
    if outputs == [] {
      assert [] + [r] == [r];
    } else {
      assert (outputs + [r])[0] == outputs[0] && (outputs + [r])[1..] == outputs[1..] + [r];
      AccumulateSnoc(Output(Show(acc) + Show(outputs[0])), outputs[1..], r);
    }
  }
}
