/** The command-line consumer of args.ts: `readArg` and `readValueArg`
    take flags (and their values) out of the argument array in place,
    `carefully` falls back on failure, and `readBuildArgs` fills in the
    serve options and the import table from what is left. */
module Args {
  import opened Js
  import opened Wrappers
  import opened Plugins

  /** `args.indexOf(x)`: the first position of `x`, or -1. */
  function FirstIndex(xs: seq<string>, x: string): (r: int)
    ensures r == -1 <==> x !in xs
    ensures r >= 0 ==> r < |xs| && xs[r] == x && x !in xs[..r]
  {
    if xs == [] then -1
    else if xs[0] == x then 0
    else
      var r := FirstIndex(xs[1..], x);
      if r < 0 then -1
      else
        assert xs[..r + 1] == [xs[0]] + xs[1..][..r];
        r + 1
  }

  function MissingArgument(name: string): string {
    "Missing argument: " + name
  }

  function MissingValue(name: string): string {
    "Missing value for argument: " + name
  }

  /** What `readArg(name, args)` returns or throws, and the array after it
      (args.ts:11-18): the first occurrence of `name` is removed and its
      index returned; without one, it throws and nothing is removed. */
  function ArgRead(args: seq<string>, name: string): (r: (Result<nat, string>, seq<string>))
    ensures name !in args ==> r == (Err(MissingArgument(name)), args)
    ensures name in args ==> var i := FirstIndex(args, name);
      r == (Ok(i), args[..i] + args[i + 1..]) && |r.1| == |args| - 1
  {
    var i := FirstIndex(args, name);
    if i >= 0 then (Ok(i), args[..i] + args[i + 1..])
    else (Err(MissingArgument(name)), args)
  }

  /** What `readValueArg(name, args)` returns or throws, and the array
      after it (args.ts:21-27): the flag and the element after it are
      removed and that element returned. A flag in last place is removed
      even though the call then throws for want of a value. */
  function ValueArgRead(args: seq<string>, name: string): (r: (Result<string, string>, seq<string>))
    ensures var i := FirstIndex(args, name);
      && (i < 0 ==> r == (Err(MissingArgument(name)), args))
      && (0 <= i < |args| - 1 ==> r == (Ok(args[i + 1]), args[..i] + args[i + 2..]))
      && (0 <= i == |args| - 1 ==> r == (Err(MissingValue(name)), args[..i]))
  {
    var (idx, rest) := ArgRead(args, name);
    match idx
    case Err(e) => (Err(e), rest)
    case Ok(i) =>
      assert name in args && i == FirstIndex(args, name) && |rest| == |args| - 1;
      if i < |rest| then
        assert rest[..i] + rest[i + 1..] == args[..i] + args[i + 2..];
        (Ok(rest[i]), rest[..i] + rest[i + 1..])
      else
        assert i == |args| - 1;
        assert rest == args[..i];
        var r: (Result<string, string>, seq<string>) := (Err(MissingValue(name)), rest);
        assert r == (Err(MissingValue(name)), args[..i]);
        r
  }

  /** `carefully` (args.ts:30-39), with the call given by its outcome: the
      value it returns, or the fallback when it throws. */
  function Carefully<T>(outcome: Result<T, string>, fallback: T): (r: T)
    ensures outcome.Ok? ==> r == outcome.value
    ensures outcome.Err? ==> r == fallback
  {
    match outcome
    case Ok(v) => v
    case Err(_) => fallback
  }

  /** `arg.split('|')` has exactly three fields. */
  predicate IsTriple(arg: string) {
    |Split(arg, '|')| == 3
  }

  /** The import table built from the arguments (args.ts:50-62): each
      argument of three `|`-separated fields sets `key` to `{name, src}`,
      the others are skipped. */
  function Imports(args: seq<string>): (r: ImportTable)
    ensures KeysDistinct(r)
    decreases |args|
  {
    if args == [] then []
    else
      var t := Imports(args[..|args| - 1]);
      var split := Split(args[|args| - 1], '|');
      if |split| == 3 then
        PutDistinct(t, split[0], Global(split[1], split[2]));
        Put(t, split[0], Global(split[1], split[2]))
      else t
  }

  /** The key a triple argument sets. */
  function TripleKey(arg: string): string
    requires IsTriple(arg)
  {
    Split(arg, '|')[0]
  }

  /** A key holds what the last argument setting it gives: a later
      duplicate overwrites an earlier one. */
  lemma {:induction false} ImportsLast(args: seq<string>, j: nat)
    requires j < |args| && IsTriple(args[j])
    requires forall l :: j < l < |args| && IsTriple(args[l]) ==> TripleKey(args[l]) != TripleKey(args[j])
    ensures var split := Split(args[j], '|');
      Lookup(Imports(args), split[0]) == Some(Global(split[1], split[2]))
    decreases |args|
  {
    var init := args[..|args| - 1];
    var last := args[|args| - 1];
    var split := Split(args[j], '|');
    if j == |args| - 1 {
      PutLookupSame(Imports(init), split[0], Global(split[1], split[2]));
    } else {
      assert init[j] == args[j];
      forall l | j < l < |init| && IsTriple(init[l]) ensures TripleKey(init[l]) != TripleKey(init[j]) {
        assert init[l] == args[l];
      }
      ImportsLast(init, j);
      if IsTriple(last) {
        PutLookupOther(Imports(init), TripleKey(last), Global(Split(last, '|')[1], Split(last, '|')[2]), split[0]);
      }
    }
  }

  /** A key no argument sets is absent. */
  lemma {:induction false} ImportsAbsent(args: seq<string>, key: string)
    requires forall l :: 0 <= l < |args| && IsTriple(args[l]) ==> TripleKey(args[l]) != key
    ensures Lookup(Imports(args), key) == None
    decreases |args|
  {
    if args != [] {
      var init := args[..|args| - 1];
      var last := args[|args| - 1];
      forall l | 0 <= l < |init| && IsTriple(init[l]) ensures TripleKey(init[l]) != key {
        assert init[l] == args[l];
      }
      ImportsAbsent(init, key);
      if IsTriple(last) {
        PutLookupOther(Imports(init), TripleKey(last), Global(Split(last, '|')[1], Split(last, '|')[2]), key);
      }
    }
  }

  datatype ServeOptions = ServeOptions(host: string, port: string)

  /** The part of `ImportGlobalsPluginOptions` the arguments set. */
  datatype GlobalsOptions = GlobalsOptions(extern: bool, table: ImportTable)

  /** `CommandlineArgs`: both parts are optional. */
  datatype CommandlineArgs = CommandlineArgs(globals: Option<GlobalsOptions>, serve: Option<ServeOptions>)

  /** The serve step of `readBuildArgs` (args.ts:43-46): `--host`, then
      `--port`, each with its value, overwrite the options they name. */
  function ServeArgs(serve: Option<ServeOptions>, args: seq<string>): (r: (Option<ServeOptions>, seq<string>))
    ensures serve.None? <==> r.0.None?
    ensures serve.None? ==> r.1 == args
  {
    match serve
    case None => (None, args)
    case Some(s) =>
      var (host, a1) := ValueArgRead(args, "--host");
      var (port, a2) := ValueArgRead(a1, "--port");
      (Some(ServeOptions(Carefully(host, s.host), Carefully(port, s.port))), a2)
  }

  /** The globals step of `readBuildArgs` (args.ts:47-63): `extern` is
      whether `--extern` could be taken out; only then is the table
      rebuilt, from the arguments left. */
  function GlobalsArgs(globals: Option<GlobalsOptions>, args: seq<string>): (r: (Option<GlobalsOptions>, seq<string>))
    ensures globals.None? <==> r.0.None?
    ensures globals.None? ==> r.1 == args
  {
    match globals
    case None => (None, args)
    case Some(g) =>
      var (found, rest) := ArgRead(args, "--extern");
      var extern := Carefully(match found { case Ok(i) => Ok(i >= 0) case Err(e) => Err(e) }, false);
      (Some(GlobalsOptions(extern, if extern then Imports(rest) else g.table)), rest)
  }

  /** `readBuildArgs(into, args)`: the options it leaves in `into` and the
      arguments it leaves in `args`. */
  function BuildArgs(into: CommandlineArgs, args: seq<string>): (r: (CommandlineArgs, seq<string>))
    ensures |r.1| <= |args|
  {
    var (serve, a1) := ServeArgs(into.serve, args);
    var (globals, a2) := GlobalsArgs(into.globals, a1);
    ValueArgShrinks(args, "--host");
    ValueArgShrinks(ValueArgRead(args, "--host").1, "--port");
    (CommandlineArgs(globals, serve), a2)
  }

  lemma ValueArgShrinks(args: seq<string>, name: string)
    ensures |ValueArgRead(args, name).1| <= |args|
  {
  }

  /** The host is the value after the first `--host` when there is one,
      and stays what it was otherwise; the same goes for the port, looked
      up once the host and its value are gone. */
  lemma ServeFromFlags(s: ServeOptions, args: seq<string>)
    ensures var (r, rest) := ServeArgs(Some(s), args);
      var i := FirstIndex(args, "--host");
      var a1 := ValueArgRead(args, "--host").1;
      var j := FirstIndex(a1, "--port");
      && r.Some?
      && r.value.host == (if 0 <= i < |args| - 1 then args[i + 1] else s.host)
      && r.value.port == (if 0 <= j < |a1| - 1 then a1[j + 1] else s.port)
      && ("--host" in args ==> |a1| < |args|)
  {
  }

  /** `extern` becomes true exactly when `--extern` is among the arguments,
      and then that occurrence is gone; the table is rebuilt from the rest
      when it is true and kept when it is false. */
  lemma ExternFromFlag(g: GlobalsOptions, args: seq<string>)
    ensures var (r, rest) := GlobalsArgs(Some(g), args);
      && r.Some?
      && (r.value.extern <==> "--extern" in args)
      && (r.value.extern ==> rest == args[..FirstIndex(args, "--extern")] + args[FirstIndex(args, "--extern") + 1..])
      && (r.value.extern ==> r.value.table == Imports(rest))
      && (!r.value.extern ==> r.value.table == g.table && rest == args)
  {
  }

  /** With serve options, `--host`, `--port` and their values are taken out
      before the table is read, so they are not among the arguments it is
      built from. */
  lemma ServeBeforeTable(into: CommandlineArgs, args: seq<string>)
    requires into.serve.Some? && into.globals.Some?
    ensures var a1 := ServeArgs(into.serve, args).1;
      && BuildArgs(into, args).1 == GlobalsArgs(into.globals, a1).1
      && (BuildArgs(into, args).0.globals.value.extern ==>
            BuildArgs(into, args).0.globals.value.table == Imports(ArgRead(a1, "--extern").1))
  {
  }

  /** The argument array `readBuildArgs` consumes, updated in place. */
  class Argv {
    var args: seq<string>

    constructor(args: seq<string>)
      ensures this.args == args
    {
      this.args := args;
    }

    /** `readArg` (args.ts:11-18). */
    method ReadArg(name: string) returns (r: Result<nat, string>)
      modifies this
      ensures (r, args) == ArgRead(old(args), name)
    {
      var idx := FirstIndex(args, name);
      if idx >= 0 {
        args := args[..idx] + args[idx + 1..];
        return Ok(idx);
      }
      return Err(MissingArgument(name));
    }

    /** `readValueArg` (args.ts:21-27). */
    method ReadValueArg(name: string) returns (r: Result<string, string>)
      modifies this
      ensures (r, args) == ValueArgRead(old(args), name)
    {
      var idx := ReadArg(name);
      match idx {
        case Err(e) =>
          return Err(e);
        case Ok(i) =>
          if i < |args| {
            var value := args[i];
            args := args[..i] + args[i + 1..];
            return Ok(value);
          }
          return Err(MissingValue(name));
      }
    }

    /** The `map`/`filter`/`reduce` of args.ts:50-62: the accumulated table
        gets `key` set for every argument with three fields. */
    method ParseImports() returns (table: ImportTable)
      ensures table == Imports(args)
    {
      table := [];
      for i := 0 to |args|
        invariant table == Imports(args[..i])
      {
        assert args[..i + 1][..i] == args[..i];
        var split := Split(args[i], '|');
        if |split| == 3 {
          table := Put(table, split[0], Global(split[1], split[2]));
        }
      }
      assert args[..|args|] == args;
    }

    /** `readBuildArgs` (args.ts:42-65): the options in `into` are updated
        and returned; the flags read are taken out of the array. */
    method ReadBuildArgs(into: CommandlineArgs) returns (out: CommandlineArgs)
      modifies this
      ensures (out, args) == BuildArgs(into, old(args))
    {
      out := into;
      if into.serve.Some? {
        var serve := into.serve.value;
        var host := ReadValueArg("--host");
        serve := serve.(host := Carefully(host, serve.host));
        var port := ReadValueArg("--port");
        serve := serve.(port := Carefully(port, serve.port));
        out := out.(serve := Some(serve));
      }
      if into.globals.Some? {
        var globals := into.globals.value;
        var found := ReadArg("--extern");
        var extern := Carefully(match found { case Ok(i) => Ok(i >= 0) case Err(e) => Err(e) }, false);
        globals := globals.(extern := extern);
        if extern {
          var table := ParseImports();
          globals := globals.(table := table);
        }
        out := out.(globals := Some(globals));
      }
    }
  }
}
