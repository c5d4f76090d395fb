/** Flags after operands (cmd/cask/flags.go): the reordering in front of Go's
    `flag` package, which stops at the first operand. */
module Flags {
  import opened Common
  import opened Texts

  /** The defined flags, and whether each is boolean. */
  type FlagSet = map<string, bool>

  datatype Assignment = Assignment(name: string, value: string)

  predicate IsOperand(arg: string) {
    |arg| < 2 || arg[0] != '-'
  }

  /** `strings.Cut(s, "=")`: the name, and the value if there is one. */
  function CutName(s: string): string {
    s[..Index(s, '=')]
  }

  function CutValue(s: string): Option<string> {
    var i := Index(s, '=');
    if i < |s| then Some(s[i + 1..]) else None
  }

  // ---- The flag package -------------------------------------------------------------

  datatype Why = BadSyntax | Undefined | NeedsArgument | BadValue

  /** One flag taken off the front of an argument list. */
  datatype Taken = Took(made: Assignment, rest: seq<string>) | Refused(why: Why) | Help

  datatype Parse =
    | Parsed(made: seq<Assignment>, operands: seq<string>)
    | Failed(made: seq<Assignment>, why: Why)
    | HelpRequested(made: seq<Assignment>)

  function Cons(a: Assignment, p: Parse): Parse {
    match p
    case Parsed(made, operands) => Parsed([a] + made, operands)
    case Failed(made, why) => Failed([a] + made, why)
    case HelpRequested(made) => HelpRequested([a] + made)
  }

  /** `FlagSet.parseOne` on a list that starts with a flag. `accepts` says which
      values a flag's `Set` takes. */
  function TakeFlag(flags: FlagSet, accepts: Assignment -> bool, args: seq<string>): (r: Taken)
    requires |args| > 0 && !IsOperand(args[0])
    ensures r.Took? ==> |r.rest| < |args|
  {
    var body := if args[0][1] == '-' then args[0][2..] else args[0][1..];
    if |body| == 0 || body[0] == '-' || body[0] == '=' then Refused(BadSyntax) else
    var name, value := CutName(body), CutValue(body);
    if name !in flags then
      if name == "help" || name == "h" then Help else Refused(Undefined)
    else if flags[name] then
      Accept(accepts, Assignment(name, if value.Some? then value.value else "true"), args[1..])
    else if value.Some? then Accept(accepts, Assignment(name, value.value), args[1..])
    else if |args| > 1 then Accept(accepts, Assignment(name, args[1]), args[2..])
    else Refused(NeedsArgument)
  }

  function Accept(accepts: Assignment -> bool, a: Assignment, rest: seq<string>): Taken {
    if accepts(a) then Took(a, rest) else Refused(BadValue)
  }

  /** `FlagSet.Parse`: stops at the first operand or after "--". */
  function StandardParse(flags: FlagSet, accepts: Assignment -> bool, args: seq<string>): Parse
    decreases |args|
  {
    if |args| == 0 || IsOperand(args[0]) then Parsed([], args)
    else if args[0] == "--" then Parsed([], args[1..])
    else
      match TakeFlag(flags, accepts, args)
      case Took(a, rest) => Cons(a, StandardParse(flags, accepts, rest))
      case Refused(why) => Failed([], why)
      case Help => HelpRequested([])
  }

  /** The intended meaning: flags and operands in any order, everything after "--"
      an operand. */
  function InterspersedParse(flags: FlagSet, accepts: Assignment -> bool, args: seq<string>): Parse
    decreases |args|
  {
    if |args| == 0 then Parsed([], [])
    else if IsOperand(args[0]) then
      match InterspersedParse(flags, accepts, args[1..])
      case Parsed(made, operands) => Parsed(made, [args[0]] + operands)
      case other => other
    else if args[0] == "--" then Parsed([], args[1..])
    else
      match TakeFlag(flags, accepts, args)
      case Took(a, rest) => Cons(a, InterspersedParse(flags, accepts, rest))
      case Refused(why) => Failed([], why)
      case Help => HelpRequested([])
  }

  // ---- The reordering ---------------------------------------------------------------

  function TrimDashes(s: string): string {
    if |s| > 0 && s[0] == '-' then TrimDashes(s[1..]) else s
  }

  predicate HelpName(name: string) {
    name == "h" || name == "help"
  }

  /** What the scan sorts an argument list into: the flags with their values, the
      end marker if it was met, and the operands. */
  datatype Split =
    | Split(front: seq<string>, marked: bool, operands: seq<string>)
    | Rejected
  {
    function Reordered(): seq<string>
      requires Split?
    {
      front + (if marked then ["--"] else []) + operands
    }

    /** The split of a longer list whose earlier arguments were sorted already. */
    function After(flagArgs: seq<string>, operandArgs: seq<string>): Split {
      if Rejected? then Rejected else Split(flagArgs + front, marked, operandArgs + operands)
    }
  }

  /** How many arguments a flag spends: itself, and a separate value if it takes
      one; `None` if the scan rejects it. */
  function Spends(flags: FlagSet, args: seq<string>): (r: Option<nat>)
    requires |args| > 0
    ensures r.Some? ==> 1 <= r.value <= 2 && r.value <= |args|
  {
    var body := TrimDashes(args[0]);
    var name := CutName(body);
    if HelpName(name) then Some(1)
    else if name !in flags then None
    else if CutValue(body).Some? || flags[name] then Some(1)
    else if |args| < 2 then None
    else Some(2)
  }

  function Scan(flags: FlagSet, args: seq<string>): Split
    decreases |args|
  {
    if |args| == 0 then Split([], false, [])
    else if args[0] == "--" then Split([], true, args[1..])
    else if IsOperand(args[0]) then Scan(flags, args[1..]).After([], [args[0]])
    else
      match Spends(flags, args)
      case None => Rejected
      case Some(n) => Scan(flags, args[n..]).After(args[..n], [])
  }

  lemma AfterTwice(s: Split, f: seq<string>, o: seq<string>, f': seq<string>, o': seq<string>)
    ensures s.After(f', o').After(f, o) == s.After(f + f', o + o')
  {
    if s.Split? {
      ConcatAssoc(f, f', s.front);
      ConcatAssoc(o, o', s.operands);
    }
  }

  /** `flagsFirst`. */
  method FlagsFirst(flags: FlagSet, args: seq<string>) returns (r: Option<seq<string>>)
    ensures r == match Scan(flags, args) case Rejected => None case s => Some(s.Reordered())
  {
    var reordered: seq<string> := [];
    var operands: seq<string> := [];
    var i := 0;
    assert args[0..] == args;
    assert Scan(flags, args).After([], []) == Scan(flags, args);
    while i < |args|
      invariant 0 <= i <= |args|
      invariant Scan(flags, args) == Scan(flags, args[i..]).After(reordered, operands)
    {
      var arg := args[i];
      ScanStep(flags, args, i, reordered, operands);
      if arg == "--" {
        return Some(reordered + [arg] + (operands + args[i + 1..]));
      }
      if |arg| < 2 || arg[0] != '-' {
        operands := operands + [arg];
        i := i + 1;
        continue;
      }
      var body := TrimDashes(arg);
      var name := CutName(body);
      if name == "h" || name == "help" {
        reordered := reordered + [arg];
        i := i + 1;
        continue;
      }
      if name !in flags {
        return None;
      }
      reordered := reordered + [arg];
      if CutValue(body).Some? || flags[name] {
        i := i + 1;
        continue;
      }
      if i + 1 >= |args| {
        return None;
      }
      i := i + 1;
      reordered := reordered + [args[i]];
      i := i + 1;
    }
    assert args[i..] == [];
    assert reordered + [] == reordered && operands + [] == operands;
    return Some(reordered + operands);
  }

  /** One turn of the loop, in terms of what is left to scan. */
  lemma ScanStep(flags: FlagSet, args: seq<string>, i: nat, f: seq<string>, o: seq<string>)
    requires i < |args|
    ensures var here, arg := Scan(flags, args[i..]).After(f, o), args[i];
            if arg == "--" then here == Split(f, true, o + args[i + 1..])
            else if IsOperand(arg) then here == Scan(flags, args[i + 1..]).After(f, o + [arg])
            else
              match Spends(flags, args[i..])
              case None => here == Rejected
              case Some(n) =>
                if n == 1 then here == Scan(flags, args[i + 1..]).After(f + [arg], o)
                else n == 2 && i + 1 < |args| && here == Scan(flags, args[i + 2..]).After(f + [arg] + [args[i + 1]], o)
  {
    var rest := args[i..];
    assert rest[1..] == args[i + 1..];
    if args[i] == "--" {
      assert f + [] == f;
    } else if IsOperand(args[i]) {
      AfterTwice(Scan(flags, args[i + 1..]), f, o, [], [args[i]]);
      assert f + [] == f;
    } else {
      var n := Spends(flags, rest);
      if n == Some(1) {
        AfterTwice(Scan(flags, args[i + 1..]), f, o, rest[..1], []);
        assert rest[..1] == [args[i]] && o + [] == o;
      } else if n == Some(2) {
        assert rest[2..] == args[i + 2..] && rest[..2] == [args[i], args[i + 1]];
        AfterTwice(Scan(flags, args[i + 2..]), f, o, rest[..2], []);
        assert f + [args[i]] + [args[i + 1]] == f + [args[i], args[i + 1]] && o + [] == o;
      }
    }
  }

  // ---- The reordering preserves meaning ----------------------------------------------

  /** A defined flag named -h or -help that takes its value from the next argument:
      the scan moves the flag and leaves the value behind. */
  predicate LosesValue(flags: FlagSet, arg: string) {
    var body := TrimDashes(arg);
    var name := CutName(body);
    HelpName(name) && name in flags && !flags[name] && CutValue(body).None?
  }

  /** The scan meets such a flag. */
  predicate Misplaces(flags: FlagSet, args: seq<string>)
    decreases |args|
  {
    && |args| > 0 && args[0] != "--"
    && if IsOperand(args[0]) then Misplaces(flags, args[1..])
       else
         || LosesValue(flags, args[0])
         || match Spends(flags, args)
            case None => false
            case Some(n) => Misplaces(flags, args[n..])
  }

  /** The scan meets a flag named -h or -help. */
  predicate AsksHelp(flags: FlagSet, args: seq<string>)
    decreases |args|
  {
    && |args| > 0 && args[0] != "--"
    && if IsOperand(args[0]) then AsksHelp(flags, args[1..])
       else
         || HelpName(CutName(TrimDashes(args[0])))
         || match Spends(flags, args)
            case None => false
            case Some(n) => AsksHelp(flags, args[n..])
  }

  /** Up to two dashes, trimming them all is what the flag package does. */
  lemma TrimDashesIsBody(arg: string)
    requires !IsOperand(arg)
    ensures var body := if arg[1] == '-' then arg[2..] else arg[1..];
            |body| > 0 && body[0] != '-' ==> TrimDashes(arg) == body
  {
    assert TrimDashes(arg) == TrimDashes(arg[1..]);
    if arg[1] == '-' {
      assert arg[1..][1..] == arg[2..];
    }
  }

  /** A flag the scan keeps parses the same wherever it stands: it spends what the
      scan moved with it, and leaves whatever follows. */
  lemma TakeFlagMoves(flags: FlagSet, accepts: Assignment -> bool, args: seq<string>, y: seq<string>)
    requires |args| > 0 && !IsOperand(args[0]) && !LosesValue(flags, args[0])
    ensures match Spends(flags, args)
            case None => TakeFlag(flags, accepts, args).Refused?
            case Some(n) =>
              match TakeFlag(flags, accepts, args)
              case Took(a, rest) => rest == args[n..] && TakeFlag(flags, accepts, args[..n] + y) == Took(a, y)
              case Refused(why) => TakeFlag(flags, accepts, args[..n] + y) == Refused(why)
              case Help =>
                HelpName(CutName(TrimDashes(args[0]))) && TakeFlag(flags, accepts, args[..n] + y) == Help
  {
    TrimDashesIsBody(args[0]);
    var n := Spends(flags, args);
    if n.Some? {
      var moved := args[..n.value] + y;
      assert moved[0] == args[0] && moved[n.value..] == y;
      if n.value == 2 {
        assert moved[1] == args[1];
      }
    }
  }

  /** So the standard parser takes it off the front of what the scan made. */
  lemma FlagFirst(flags: FlagSet, accepts: Assignment -> bool, args: seq<string>, n: nat, y: seq<string>)
    requires |args| > 0 && !IsOperand(args[0]) && args[0] != "--" && !LosesValue(flags, args[0])
    requires Spends(flags, args) == Some(n)
    ensures var p, taken := StandardParse(flags, accepts, args[..n] + y), TakeFlag(flags, accepts, args);
            && (taken.Took? ==> p == Cons(taken.made, StandardParse(flags, accepts, y)) && taken.rest == args[n..])
            && (taken.Refused? ==> p == Failed([], taken.why))
            && (taken.Help? ==> p == HelpRequested([]))
  {
    TakeFlagMoves(flags, accepts, args, y);
    assert (args[..n] + y)[0] == args[0];
  }

  function WithOperands(p: Parse, operands: seq<string>): Parse {
    if p.Parsed? then Parsed(p.made, operands) else p
  }

  /** The moved flags make the assignments of the interspersed parse, and leave as
      operands whatever is put behind them. */
  lemma {:induction false} FrontParse(flags: FlagSet, accepts: Assignment -> bool, args: seq<string>, x: seq<string>)
    requires !Misplaces(flags, args) && Scan(flags, args).Split?
    requires Scan(flags, args).marked || |x| == 0 || IsOperand(x[0])
    ensures var s := Scan(flags, args);
            StandardParse(flags, accepts, s.front + ((if s.marked then ["--"] else []) + x)) ==
            WithOperands(InterspersedParse(flags, accepts, args), x)
    decreases |args|
  {
    var s := Scan(flags, args);
    var tail := (if s.marked then ["--"] else []) + x;
    if |args| == 0 {
      assert s.front + tail == x;
    } else if args[0] == "--" {
      assert s.front + tail == ["--"] + x && (["--"] + x)[1..] == x;
    } else if IsOperand(args[0]) {
      FrontParse(flags, accepts, args[1..], x);
      assert s.front == Scan(flags, args[1..]).front;
    } else {
      var n := Spends(flags, args).value;
      var rest := Scan(flags, args[n..]);
      FrontParse(flags, accepts, args[n..], x);
      FlagFirst(flags, accepts, args, n, rest.front + tail);
      ConcatAssoc(args[..n], rest.front, tail);
    }
  }

  lemma {:induction false} OperandsKept(flags: FlagSet, accepts: Assignment -> bool, args: seq<string>)
    requires !Misplaces(flags, args) && Scan(flags, args).Split?
    ensures var s, p := Scan(flags, args), InterspersedParse(flags, accepts, args);
            && (p.Parsed? ==> p.operands == s.operands)
            && (s.marked || |s.operands| == 0 || IsOperand(s.operands[0]))
    decreases |args|
  {
    if |args| == 0 || args[0] == "--" {
    } else if IsOperand(args[0]) {
      OperandsKept(flags, accepts, args[1..]);
    } else {
      TakeFlagMoves(flags, accepts, args, []);
      OperandsKept(flags, accepts, args[Spends(flags, args).value..]);
    }
  }

  lemma {:induction false} RejectedFails(flags: FlagSet, accepts: Assignment -> bool, args: seq<string>)
    requires !Misplaces(flags, args) && Scan(flags, args).Rejected?
    ensures !InterspersedParse(flags, accepts, args).Parsed?
    ensures !AsksHelp(flags, args) ==> InterspersedParse(flags, accepts, args).Failed?
    decreases |args|
  {
    if IsOperand(args[0]) {
      RejectedFails(flags, accepts, args[1..]);
    } else {
      TakeFlagMoves(flags, accepts, args, []);
      if Spends(flags, args).Some? {
        RejectedFails(flags, accepts, args[Spends(flags, args).value..]);
      }
    }
  }

  /** What the reordering is for: the standard parser on the reordered list makes the
      same assignments in the same order, with the same operands, failure or help
      request, as the interspersed parse; and a list the reordering rejects is one
      the interspersed parse does not accept. */
  ghost predicate Preserved(flags: FlagSet, accepts: Assignment -> bool, args: seq<string>) {
    match Scan(flags, args)
    case Rejected => !InterspersedParse(flags, accepts, args).Parsed?
    case s => StandardParse(flags, accepts, s.Reordered()) == InterspersedParse(flags, accepts, args)
  }

  /** It holds for every argument list, help requests included, in which no defined
      -h or -help takes the next argument as its value; and without a help request
      a rejected list is a failure of the interspersed parse. */
  lemma FlagsFirstPreserves(flags: FlagSet, accepts: Assignment -> bool, args: seq<string>)
    requires !Misplaces(flags, args)
    ensures Preserved(flags, accepts, args)
    ensures Scan(flags, args).Rejected? && !AsksHelp(flags, args) ==>
              InterspersedParse(flags, accepts, args).Failed?
  {
    var s := Scan(flags, args);
    if s.Rejected? {
      RejectedFails(flags, accepts, args);
    } else {
      OperandsKept(flags, accepts, args);
      FrontParse(flags, accepts, args, s.operands);
      ConcatAssoc(s.front, if s.marked then ["--"] else [], s.operands);
    }
  }

  /** No flag named -h or -help is defined to take a value. */
  predicate HelpTakesNoValue(flags: FlagSet) {
    ("h" in flags ==> flags["h"]) && ("help" in flags ==> flags["help"])
  }

  lemma {:induction false} NothingMisplaced(flags: FlagSet, args: seq<string>)
    requires HelpTakesNoValue(flags)
    ensures !Misplaces(flags, args)
    decreases |args|
  {
    if |args| > 0 && args[0] != "--" {
      if IsOperand(args[0]) {
        NothingMisplaced(flags, args[1..]);
      } else if Spends(flags, args).Some? {
        NothingMisplaced(flags, args[Spends(flags, args).value..]);
      }
    }
  }

  /** A help flag with a value, behind an operand, goes to the front alone. */
  lemma HelpValueLeft(flags: FlagSet, name: string)
    requires HelpName(name) && name in flags && !flags[name]
    ensures Scan(flags, ["a", "-" + name, "x"]) == Split(["-" + name], false, ["a", "x"])
  {
    var args, rest := ["a", "-" + name, "x"], ["-" + name, "x"];
    assert rest[0][1..] == name && TrimDashes(name) == name && CutName(name) == name;
    assert args[1..] == rest && rest[1..] == ["x"];
    assert Scan(flags, ["x"]) == Split([], false, ["x"]);
    assert Scan(flags, rest) == Split(["-" + name], false, ["x"]);
  }

  /** A flag with a value takes whatever argument comes next. */
  lemma NextIsValue(flags: FlagSet, accepts: Assignment -> bool, name: string, value: string, rest: seq<string>)
    requires HelpName(name) && name in flags && !flags[name] && accepts(Assignment(name, value))
    ensures !IsOperand("-" + name) && "-" + name != "--"
    ensures TakeFlag(flags, accepts, ["-" + name, value] + rest) == Took(Assignment(name, value), rest)
  {
    var args := ["-" + name, value] + rest;
    assert args[0][1] == name[0] && args[0][1..] == name && CutName(name) == name;
    assert args[2..] == rest;
  }

  /** So it takes the operand for its value. */
  lemma HelpValueLost(flags: FlagSet, name: string)
    requires HelpName(name) && name in flags && !flags[name]
    ensures !Preserved(flags, _ => true, ["a", "-" + name, "x"])
  {
    var accepts := (_: Assignment) => true;
    var args, rest, reordered := ["a", "-" + name, "x"], ["-" + name, "x"], ["-" + name, "a", "x"];
    HelpValueLeft(flags, name);
    NextIsValue(flags, accepts, name, "x", []);
    NextIsValue(flags, accepts, name, "a", ["x"]);
    assert rest == ["-" + name, "x"] + [] && reordered == ["-" + name, "a"] + ["x"] && args[1..] == rest;
    assert InterspersedParse(flags, accepts, rest) == Parsed([Assignment(name, "x")], []);
    assert InterspersedParse(flags, accepts, args).operands == ["a"];
    assert IsOperand("x") && StandardParse(flags, accepts, ["x"]) == Parsed([], ["x"]);
    assert StandardParse(flags, accepts, reordered) == Parsed([Assignment(name, "a")], ["x"]);
    assert Scan(flags, args).Reordered() == reordered;
  }

  /** The exact condition on a flag set: every list keeps its meaning, whatever
      values the flags accept, if and only if neither -h nor -help takes a value. */
  lemma PreservesExactly(flags: FlagSet)
    ensures (forall accepts, args :: Preserved(flags, accepts, args)) <==> HelpTakesNoValue(flags)
  {
    if HelpTakesNoValue(flags) {
      forall accepts, args ensures Preserved(flags, accepts, args) {
        NothingMisplaced(flags, args);
        FlagsFirstPreserves(flags, accepts, args);
      }
    } else if "h" in flags && !flags["h"] {
      HelpValueLost(flags, "h");
    } else {
      HelpValueLost(flags, "help");
    }
  }

  /** What the preserved meaning does not cover: a help request before an undefined
      flag is answered with a usage error. */
  lemma HelpRequestRejected(flags: FlagSet, accepts: Assignment -> bool, name: string)
    requires "h" !in flags && name !in flags && !HelpName(name)
    requires |name| > 0 && name[0] != '-' && Free(name, '=')
    ensures Scan(flags, ["-h", "-" + name]).Rejected?
    ensures InterspersedParse(flags, accepts, ["-h", "-" + name]) == HelpRequested([])
  {
    var args := ["-h", "-" + name];
    assert args[0][1..] == "h" && TrimDashes("h") == "h" && CutName("h") == "h";
    assert args[1][1..] == name && TrimDashes(name) == name && CutName(name) == name;
    assert args[1..] == [args[1]] && args[1][1] == name[0];
    assert Scan(flags, [args[1]]).Rejected?;
    assert TakeFlag(flags, accepts, args) == Help;
  }

  ghost function Tokens(s: Split): multiset<string>
    requires s.Split?
  {
    multiset(s.front) + multiset(if s.marked then ["--"] else []) + multiset(s.operands)
  }

  lemma AfterTokens(s: Split, f: seq<string>, o: seq<string>)
    requires s.Split?
    ensures Tokens(s.After(f, o)) == multiset(f) + multiset(o) + Tokens(s)
  {
  }

  lemma SplitTokens(args: seq<string>, n: nat)
    requires n <= |args|
    ensures multiset(args) == multiset(args[..n]) + multiset(args[n..])
  {
    assert args == args[..n] + args[n..];
  }

  /** Sorting the first `n` arguments to one side keeps the count. */
  lemma SortedTokens(args: seq<string>, n: nat, s: Split, f: seq<string>, o: seq<string>)
    requires n <= |args| && s.Split? && Tokens(s) == multiset(args[n..])
    requires (f == args[..n] && o == []) || (f == [] && o == args[..n])
    ensures Tokens(s.After(f, o)) == multiset(args)
  {
    SplitTokens(args, n);
    AfterTokens(s, f, o);
  }

  lemma MarkedTokens(args: seq<string>)
    requires |args| > 0 && args[0] == "--"
    ensures Tokens(Split([], true, args[1..])) == multiset(args)
  {
    SplitTokens(args, 1);
    assert args[..1] == ["--"];
  }

  lemma {:induction false} ScanTokens(flags: FlagSet, args: seq<string>)
    requires Scan(flags, args).Split?
    ensures Tokens(Scan(flags, args)) == multiset(args)
    decreases |args|
  {
    if |args| == 0 {
    } else if args[0] == "--" {
      MarkedTokens(args);
    } else if IsOperand(args[0]) {
      ScanTokens(flags, args[1..]);
      assert args[..1] == [args[0]];
      SortedTokens(args, 1, Scan(flags, args[1..]), [], [args[0]]);
    } else {
      var n := Spends(flags, args).value;
      ScanTokens(flags, args[n..]);
      SortedTokens(args, n, Scan(flags, args[n..]), args[..n], []);
    }
  }

  /** No token is lost, invented or duplicated, help request or not. */
  lemma TokensKept(flags: FlagSet, args: seq<string>)
    requires Scan(flags, args).Split?
    ensures multiset(Scan(flags, args).Reordered()) == multiset(args)
  {
    ScanTokens(flags, args);
  }
}
