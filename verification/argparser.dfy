/**
 * The command-line flag parser shared by the shell commands: a set of accepted flags and
 * the arguments stored by the last `parse`.
 */
module ArgParser {
  import opened Wrappers
  import opened Text

  datatype Parser = Parser(flags: set<string>, args: seq<string>)

  /** `ArgParser::new`: the given flags, no stored arguments. */
  function NewParser(valid: seq<string>): (p: Parser)
    ensures forall f :: f in p.flags <==> f in valid
    ensures p.args == []
  {
    Parser(set f | f in valid, [])
  }

  predicate IsHelp(a: string) {
    a == "-h" || a == "--help"
  }

  /** An argument `parse` rejects: a help flag, or a flag-like word not in the accepted set. */
  predicate Rejected(flags: set<string>, a: string) {
    IsHelp(a) || (StartsWith(a, "-") && a !in flags)
  }

  /** The argument at `k` is the first one `parse` rejects. */
  predicate FirstRejectedAt(flags: set<string>, args: seq<string>, k: int) {
    0 <= k < |args| && Rejected(flags, args[k]) && forall i :: 0 <= i < k ==> !Rejected(flags, args[i])
  }

  /** The error `parse` reports for a rejected argument. */
  function RejectReason(a: string): string {
    if IsHelp(a) then "help" else "unknown"
  }

  /**
   * `ArgParser::parse`: clears the stored arguments, then stores the input arguments in order
   * until the first rejected one, which ends the parse with its error.
   */
  method Parse(p: Parser, input: seq<string>) returns (q: Parser, res: Result<(), string>)
    ensures q.flags == p.flags
    ensures res.Ok? <==> forall i :: 0 <= i < |input| ==> !Rejected(p.flags, input[i])
    ensures res.Ok? ==> q.args == input
    ensures res.Err? ==>
      exists k :: 0 <= k < |input| && Rejected(p.flags, input[k])
        && (forall i :: 0 <= i < k ==> !Rejected(p.flags, input[i]))
        && q.args == input[..k] && res.error == RejectReason(input[k])
    ensures forall k :: FirstRejectedAt(p.flags, input, k) ==>
      res == Err(RejectReason(input[k])) && q.args == input[..k]
  {
    var args: seq<string> := [];
    var i := 0;
    while i < |input|
      invariant 0 <= i <= |input|
      invariant args == input[..i]
      invariant forall j :: 0 <= j < i ==> !Rejected(p.flags, input[j])
    {
      var a := input[i];
      if a == "-h" || a == "--help" {
        return Parser(p.flags, args), Err("help");
      }
      if |a| > 0 && a[0] == '-' {
        if a in p.flags {
          args := args + [a];
        } else {
          return Parser(p.flags, args), Err("unknown");
        }
      } else {
        args := args + [a];
      }
      i := i + 1;
    }
    assert input[..|input|] == input;
    return Parser(p.flags, args), Ok(());
  }

  /** `has_flag`: whether the flag was among the stored arguments. */
  predicate HasFlag(p: Parser, f: string) {
    f in p.args
  }

  /** The arguments that do not start with `-`, in their original order. */
  function Positional(args: seq<string>): (r: seq<string>)
    ensures |r| <= |args|
    ensures forall x :: x in r <==> x in args && !StartsWith(x, "-")
  {
    if args == [] then []
    else if StartsWith(args[0], "-") then Positional(args[1..])
    else [args[0]] + Positional(args[1..])
  }

  /** `get_positional_args` */
  function PositionalArgs(p: Parser): seq<string> {
    Positional(p.args)
  }

  /** Positional selection distributes over concatenation, so order is preserved. */
  lemma {:induction false} PositionalAppend(a: seq<string>, b: seq<string>)
    ensures Positional(a + b) == Positional(a) + Positional(b)
  {
    if a == [] {
      assert a + b == b;
    } else {
      assert (a + b)[0] == a[0];
      assert (a + b)[1..] == a[1..] + b;
      PositionalAppend(a[1..], b);
    }
  }

  /** Arguments none of which looks like a flag are all positional. */
  lemma {:induction false} PositionalOfPlain(args: seq<string>)
    requires forall i :: 0 <= i < |args| ==> !StartsWith(args[i], "-")
    ensures Positional(args) == args
  {
    if args != [] {
      PositionalOfPlain(args[1..]);
    }
  }
}
