/**
 * CmdSwitch: the command-line tokenizer shared by the LiveWire tools. Every
 * argument after the program name becomes one (key, value, processed)
 * entry kept in three parallel lists; `--version` and `--help` print a
 * message and end the program with status 0 as soon as they are met.
 * lwmultcap's class also notes `-d` as the debug switch; lwrpdump's copy
 * tokenizes in exactly the same way but has no debug switch.
 */
module CmdSwitch {
  import opened QtText

  /** One tokenized argument. */
  datatype Entry = Entry(key: string, value: string)

  /** How one argument is tokenized: split on '=' keeping empty parts; a
      dash-led first part is the key and the remaining parts, rejoined with
      '=', the value; any other argument is the key whole, with value "". */
  function EntryOf(arg: string): (e: Entry)
  {
    var f0 := Split(arg, "=");
    if |f0| >= 2 then
      if Left(f0[0], 1) == "-" then Entry(f0[0], Join(f0[1..], "="))
      else Entry(Join(f0, "="), "")
    else Entry(arg, "")
  }

  /** The arguments after the program name. */
  function Tail(args: seq<string>): (r: seq<string>)
    ensures |args| >= 1 ==> r == args[1..]
  {
    if |args| == 0 then [] else args[1..]
  }

  function KeysOf(args: seq<string>): (r: seq<string>)
    ensures |r| == |args|
  {
    seq(|args|, i requires 0 <= i < |args| => EntryOf(args[i]).key)
  }

  function ValuesOf(args: seq<string>): (r: seq<string>)
    ensures |r| == |args|
  {
    seq(|args|, i requires 0 <= i < |args| => EntryOf(args[i]).value)
  }

  /** The message printed by the first `--version` or `--help`, if any;
      the program then exits with status 0. */
  function FirstStop(args: seq<string>, versionText: string, helpText: string): (r: Option<string>)
    ensures r.None? <==> "--version" !in args && "--help" !in args
    ensures r.Some? ==> r.value == versionText || r.value == helpText
  {
    if args == [] then None
    else if args[0] == "--version" then Some(versionText)
    else if args[0] == "--help" then Some(helpText)
    else FirstStop(args[1..], versionText, helpText)
  }

  /** lwmultcap's version line from the application's argument list (with
      its trailing blank) and from argv. */
  function VersionLineQt(modname: string, version: string): string
  {
    modname + " v" + version + " \n"
  }

  function VersionLine(modname: string, version: string): string
  {
    modname + " v" + version + "\n"
  }

  function HelpText(modname: string, usage: string): string
  {
    "\n" + modname + " " + usage + "\n"
  }

  /** The rejoining loop: the value is the parts after the first, with '='
      put back between them. */
  method JoinRemainder(f0: seq<string>) returns (value: string)
    requires |f0| >= 2
    ensures value == Join(f0[1..], "=")
  {
    value := f0[1];
    var i := 2;
    while i < |f0|
      invariant 2 <= i <= |f0|
      invariant value == Join(f0[1..i], "=")
    {
      JoinSnoc(f0[1..i], "=", f0[i]);
      assert f0[1..i + 1] == f0[1..i] + [f0[i]];
      value := value + "=" + f0[i];
      i := i + 1;
    }
    assert f0[1..i] == f0[1..];
  }

  /** The loop body for one argument. */
  method TokenizeOne(value: string) returns (key: string, val: string)
    ensures Entry(key, val) == EntryOf(value)
  {
    var f0 := Split(value, "=");
    if |f0| >= 2 {
      if Left(f0[0], 1) == "-" {
        key := f0[0];
        var joined := JoinRemainder(f0);
        if joined == [] {
          val := "";
        } else {
          val := joined;
        }
      } else {
        key := Join(f0, "=");
        val := "";
      }
    } else {
      key := value;
      val := "";
    }
  }

  /** The constructor's loop over the arguments after the program name. */
  method Tokenize(args: seq<string>, versionText: string, helpText: string)
    returns (keys: seq<string>, values: seq<string>, processed: seq<bool>,
             debug: bool, exitMessage: Option<string>)
    ensures exitMessage == FirstStop(Tail(args), versionText, helpText)
    ensures exitMessage.None? ==>
      keys == KeysOf(Tail(args)) && values == ValuesOf(Tail(args)) &&
      processed == seq(|Tail(args)|, _ => false) && (debug <==> "-d" in Tail(args))
  {
    var rest := Tail(args);
    keys, values, processed, debug := [], [], [], false;
    var i := 0;
    while i < |rest|
      invariant 0 <= i <= |rest|
      invariant FirstStop(rest[i..], versionText, helpText) == FirstStop(rest, versionText, helpText)
      invariant "--version" !in rest[..i] && "--help" !in rest[..i]
      invariant keys == KeysOf(rest[..i]) && values == ValuesOf(rest[..i])
      invariant |processed| == i && forall j :: 0 <= j < i ==> !processed[j]
      invariant debug <==> "-d" in rest[..i]
    {
      var value := rest[i];
      PrefixSnoc(rest, i);
      if value == "--version" {
        return keys, values, processed, debug, Some(versionText);
      }
      if value == "--help" {
        return keys, values, processed, debug, Some(helpText);
      }
      if value == "-d" {
        debug := true;
      }
      var key, val := TokenizeOne(value);
      EntriesSnoc(rest[..i], value);
      keys := keys + [key];
      values := values + [val];
      processed := processed + [false];
      assert FirstStop(rest[i + 1..], versionText, helpText) == FirstStop(rest[i..], versionText, helpText) by {
        assert rest[i..][1..] == rest[i + 1..];
      }
      i := i + 1;
    }
    assert rest[..i] == rest && rest[i..] == [];
    assert processed == seq(|rest|, _ => false);
    exitMessage := None;
  }

  /** The first i + 1 arguments: the first i and the next. */
  lemma PrefixSnoc(args: seq<string>, i: nat)
    requires i < |args|
    ensures args[..i + 1] == args[..i] + [args[i]]
  {
  }

  /** One more argument adds its key and its value at the end. */
  lemma EntriesSnoc(args: seq<string>, x: string)
    ensures KeysOf(args + [x]) == KeysOf(args) + [EntryOf(x).key]
    ensures ValuesOf(args + [x]) == ValuesOf(args) + [EntryOf(x).value]
  {
    assert forall k :: 0 <= k < |args| ==> (args + [x])[k] == args[k];
  }

  class CmdSwitch {
    var keys: seq<string>
    var values: seq<string>
    var processed: seq<bool>
    var debug: bool
    /** The message printed before the program exited with status 0 from
        within the constructor (`--version` or `--help`), if it did. */
    var exitMessage: Option<string>

    /** The three lists run in parallel. */
    predicate Valid()
      reads this
    {
      |values| == |keys| && |processed| == |keys|
    }

    /** lwmultcap: the constructor reading the application's arguments. */
    constructor FromArguments(args: seq<string>, modname: string, version: string, usage: string)
      ensures exitMessage == FirstStop(Tail(args), VersionLineQt(modname, version), HelpText(modname, usage))
      ensures exitMessage.None? ==>
        Valid() && keys == KeysOf(Tail(args)) && values == ValuesOf(Tail(args)) &&
        processed == seq(|Tail(args)|, _ => false) && (debug <==> "-d" in Tail(args))
    {
      var k, v, p, d, m := Tokenize(args, VersionLineQt(modname, version), HelpText(modname, usage));
      keys, values, processed, debug, exitMessage := k, v, p, d, m;
    }

    /** lwmultcap: the constructor reading argc/argv. */
    constructor FromArgv(argv: seq<string>, modname: string, version: string, usage: string)
      ensures exitMessage == FirstStop(Tail(argv), VersionLine(modname, version), HelpText(modname, usage))
      ensures exitMessage.None? ==>
        Valid() && keys == KeysOf(Tail(argv)) && values == ValuesOf(Tail(argv)) &&
        processed == seq(|Tail(argv)|, _ => false) && (debug <==> "-d" in Tail(argv))
    {
      var k, v, p, d, m := Tokenize(argv, VersionLine(modname, version), HelpText(modname, usage));
      keys, values, processed, debug, exitMessage := k, v, p, d, m;
    }

    /** lwrpdump: the same tokenizer with a module version and no debug
        switch. */
    constructor ForRpdump(args: seq<string>, modname: string, modver: string, usage: string)
      ensures exitMessage == FirstStop(Tail(args), VersionLine(modname, modver), HelpText(modname, usage))
      ensures exitMessage.None? ==>
        Valid() && keys == KeysOf(Tail(args)) && values == ValuesOf(Tail(args)) &&
        processed == seq(|Tail(args)|, _ => false) && !debug
    {
      var k, v, p, _, m := Tokenize(args, VersionLine(modname, modver), HelpText(modname, usage));
      keys, values, processed, debug, exitMessage := k, v, p, false, m;
    }

    /** setProcessed(n, state): writes flag n and nothing else. */
    method SetProcessed(n: nat, state: bool)
      requires n < |processed|
      modifies this
      ensures processed == old(processed)[n := state]
      ensures keys == old(keys) && values == old(values)
      ensures debug == old(debug) && exitMessage == old(exitMessage)
    {
      processed := processed[n := state];
    }

    /** allProcessed: scans the flags for one still false. */
    method AllProcessed() returns (all: bool)
      ensures all <==> forall i :: 0 <= i < |processed| ==> processed[i]
      ensures |processed| == 0 ==> all
    {
      var i := 0;
      while i < |processed|
        invariant 0 <= i <= |processed|
        invariant forall j :: 0 <= j < i ==> processed[j]
      {
        if !processed[i] {
          return false;
        }
        i := i + 1;
      }
      return true;
    }
  }

  // -----------------------------------------------------------------------
  // What one argument becomes
  // -----------------------------------------------------------------------

  /** An argument without '=' is the key, with an empty value. */
  lemma EntryWithoutEquals(arg: string)
    requires '=' !in arg
    ensures EntryOf(arg) == Entry(arg, "")
  {
    SplitFromPlain(arg, '=', "");
    assert "" + arg == arg;
  }

  /** Splitting at the first '=': the part before it, then the split of
      the rest. */
  lemma SplitAtFirst(k: string, v: string)
    requires '=' !in k
    ensures Split(k + "=" + v, "=") == [k] + Split(v, "=")
  {
    SplitFromSkip(k, "=" + v, "=", "");
    assert k + "=" + v == k + ("=" + v);
    assert ("=" + v)[..1] == "=" && ("=" + v)[1..] == v;
    assert "" + k == k;
  }

  /** An argument k=v with k free of '=': a dash-led k is the key and v,
      whatever '=' it holds, the value; otherwise the whole argument is the
      key with an empty value. */
  lemma EntryAtFirstEquals(k: string, v: string)
    requires '=' !in k
    ensures k != [] && k[0] == '-' ==> EntryOf(k + "=" + v) == Entry(k, v)
    ensures !(k != [] && k[0] == '-') ==> EntryOf(k + "=" + v) == Entry(k + "=" + v, "")
  {
    var arg := k + "=" + v;
    SplitAtFirst(k, v);
    var f0 := Split(arg, "=");
    assert f0[0] == k && f0[1..] == Split(v, "=");
    JoinSplit(v, "=");
    JoinSplit(arg, "=");
    if k != [] {
      assert Left(k, 1) == [k[0]];
    }
  }

  /** Nothing is lost: key and value give the argument back. */
  lemma EntryRestores(arg: string)
    ensures var e := EntryOf(arg);
      (e.value != [] ==> arg == e.key + "=" + e.value) &&
      (e.value == [] ==> arg == e.key || arg == e.key + "=")
  {
    var f0 := Split(arg, "=");
    JoinSplit(arg, "=");
    if |f0| >= 2 {
      assert Join(f0, "=") == f0[0] + "=" + Join(f0[1..], "=");
    }
  }

  /** The `-k=a=b` example: key `-k`, value `a=b`. */
  lemma DashKeyKeepsLaterEquals(a: string, b: string)
    requires '=' !in a
    ensures EntryOf("-k=" + a + "=" + b) == Entry("-k", a + "=" + b)
  {
    assert "-k=" + a + "=" + b == "-k" + "=" + (a + "=" + b);
    EntryAtFirstEquals("-k", a + "=" + b);
  }

  /** `-d` switches debugging on and is still recorded as a key. */
  lemma DebugIsAlsoAKey(args: seq<string>, i: nat)
    requires i < |args| && args[i] == "-d"
    ensures KeysOf(args)[i] == "-d" && ValuesOf(args)[i] == ""
  {
    EntryWithoutEquals("-d");
  }
}
