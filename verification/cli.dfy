/**
 The argument checks of the four command-line programs. Each takes the
 words of a command line and decides whether a request is made, and with
 which argument; printing and the network calls themselves are left out.
 */

/** The administrator's console: every command takes an optional qualifier
    naming the replica it is for. */
module AdminCli {
  import opened Options
  import opened JavaText

  /** getQualifier: no argument means the primary, one argument must be "P"
      or a secondary qualifier, and anything else gives the empty string. */
  function GetQualifier(cmdArgs: seq<string>): (q: string)
    requires |cmdArgs| >= 1
    ensures |cmdArgs| > 2 ==> q == ""
    ensures |cmdArgs| == 1 ==> q == "P"
    ensures |cmdArgs| == 2 ==> q == (if cmdArgs[1] == "P" || IsSecondaryQualifier(cmdArgs[1]) then cmdArgs[1] else "")
    ensures q != "" ==> q == "P" || IsSecondaryQualifier(q)
  {
    if |cmdArgs| > 2 then ""
    else if |cmdArgs| == 1 then "P"
    else if cmdArgs[1] == "P" || IsSecondaryQualifier(cmdArgs[1]) then cmdArgs[1]
    else ""
  }

  /** activate, deactivate, dump, activateGossip, deactivateGossip and
      gossip all forward the qualifier, and only when it is not empty. */
  function Forwarded(cmdArgs: seq<string>): (r: Option<string>)
    requires |cmdArgs| >= 1
    ensures r.Some? <==> GetQualifier(cmdArgs) != ""
    ensures r.Some? ==> r.value == GetQualifier(cmdArgs)
  {
    var q := GetQualifier(cmdArgs);
    if q == "" then None else Some(q)
  }

  /** The qualifier the naming server gives a secondary, "S" and its
      number, is one an administrator can address; so are "P" and "S". */
  lemma {:induction false} NumberedSecondaryAddressable(command: string, n: nat)
    ensures Forwarded([command, "S" + NatToString(n)]) == Some("S" + NatToString(n))
    ensures Forwarded([command, "P"]) == Some("P")
    ensures Forwarded([command, "S"]) == Some("S")
    ensures Forwarded([command]) == Some("P")
  {
    NumberedSecondaryMatches(n);
    assert "S"[1..] == [];
  }

  /** A second argument that is neither the primary nor a secondary, or a
      third argument, means nothing is sent. */
  lemma {:induction false} OtherArgumentsNotForwarded(command: string, arg: string, extra: seq<string>)
    ensures arg != "P" && !IsSecondaryQualifier(arg) ==> Forwarded([command, arg]) == None
    ensures |extra| > 0 ==> Forwarded([command, arg] + extra) == None
  {
  }
}

/** The student client's start-up arguments: an id and a name. */
module StudentCli {
  import opened Options
  import opened JavaText
  import opened VectorClocks
  import opened Classes
  import opened Handlers

  /** parseStudentName: the arguments after the id joined by single spaces;
      when "-debug" is among them the last argument is dropped, wherever the
      flag itself stands. */
  function ParseStudentName(args: seq<string>): (name: string)
    requires |args| >= 2
    ensures "-debug" !in args ==> name == JoinWithSpaces(args[1..])
    ensures "-debug" in args ==> name == JoinWithSpaces(args[1..|args| - 1])
  {
    if "-debug" in args then JoinWithSpaces(args[1..|args| - 1]) else JoinWithSpaces(args[1..])
  }

  /** validArguments: at least two arguments, an id of the shape the class
      server checks (the same startsWith, split and parseInt tests, written
      out again in the client), and a name whose length() is 3 to 30. */
  function ValidArguments(args: seq<string>): (ok: bool)
    ensures ok ==> |args| >= 2 && IsValidStudentId(args[0])
  {
    && |args| >= 2
    && IsValidStudentId(args[0])
    && IsValidStudentName(ParseStudentName(args))
  }

  /** A student started with valid arguments never has an enrolment turned
      away as an invalid argument: the server answers with a code. */
  lemma {:induction false} ValidStudentGetsAnswer(args: seq<string>, r: Replica, now: Instant, client: Clock, p: Peers)
    requires ValidArguments(args) && CanGossip(r, p)
    ensures StudentEnroll(r, args[0], ParseStudentName(args), now, client, p).reply.Reply?
  {
    var u := UpdateServer(r, client, p);
    var o := Enroll(u.replica, args[0], ParseStudentName(args), now);
    if o.Failed? {
      assert o.error != InvalidStudentId && o.error != InvalidStudentName;
    }
  }

  /** With the debug flag and no other word after the id, the name is empty
      and the arguments are rejected. */
  lemma {:induction false} DebugFlagAloneIsNoName(id: string)
    ensures ParseStudentName([id, "-debug"]) == ""
    ensures !ValidArguments([id, "-debug"])
  {
    assert "-debug" in [id, "-debug"];
    assert [id, "-debug"][1..1] == [];
  }

  /** The name's length counts every word and one space between each two,
      in characters and in the UTF-16 code units the name check counts. */
  lemma {:induction false} NameLength(args: seq<string>)
    requires |args| >= 2 && "-debug" !in args
    ensures |ParseStudentName(args)| == SumLengths(args[1..]) + |args| - 2
    ensures Utf16Length(ParseStudentName(args)) == SumUtf16Lengths(args[1..]) + |args| - 2
  {
    JoinLength(args[1..]);
    JoinUtf16Length(args[1..]);
  }
}

/** The class server's start-up arguments: service name, host, port and
    qualifier. */
module ClassServerCli {
  import opened JavaText
  import opened ServerStatuses

  /** validArguments: at least four arguments, a port parseInt accepts and
      a qualifier that is exactly "P" or "S". */
  function ValidArguments(args: seq<string>): (ok: bool)
    ensures ok ==> |args| >= 4 && ParseInt(args[2]).Some? && (args[3] == "P" || args[3] == "S")
  {
    |args| >= 4 && ParseInt(args[2]).Some? && (args[3] == "P" || args[3] == "S")
  }

  predicate IsQualifier(a: string) {
    a == "P" || a == "S"
  }

  /** parseQualifiers: every argument equal to "P" or "S", in order. Every
      argument is scanned, the service name and the host included. */
  function ParseQualifiers(args: seq<string>): (qs: seq<string>)
    ensures forall i :: 0 <= i < |qs| ==> IsQualifier(qs[i])
    ensures forall a :: a in qs <==> a in args && IsQualifier(a)
    ensures |qs| <= |args|
  {
    if |args| == 0 then []
    else
      assert forall a :: a in args <==> a == args[0] || a in args[1..];
      (if IsQualifier(args[0]) then [args[0]] else []) + ParseQualifiers(args[1..])
  }

  /** The filter works piece by piece, so the qualifiers keep the order of
      the command line. */
  lemma {:induction false} ParseQualifiersDistributes(a: seq<string>, b: seq<string>)
    ensures ParseQualifiers(a + b) == ParseQualifiers(a) + ParseQualifiers(b)
  {
    if |a| > 0 {
      assert (a + b)[0] == a[0] && (a + b)[1..] == a[1..] + b;
      ParseQualifiersDistributes(a[1..], b);
    } else {
      assert a + b == b;
    }
  }

  /** A server started with valid arguments has a first qualifier, the one
      its gossip messages carry; and that qualifier is the first "P" or "S"
      on the command line, which is the fourth argument unless the service
      name or host is itself "P" or "S". */
  lemma {:induction false} ValidArgumentsGiveQualifier(args: seq<string>, port: int)
    requires ValidArguments(args)
    ensures |NewStatus(args[1], port, ParseQualifiers(args)).qualifiers| > 0
    ensures !IsQualifier(args[0]) && !IsQualifier(args[1]) && !IsQualifier(args[2]) ==>
              ParseQualifiers(args)[0] == args[3]
  {
    assert args == args[..3] + args[3..];
    ParseQualifiersDistributes(args[..3], args[3..]);
    assert args[3..] == [args[3]] + args[4..];
    ParseQualifiersDistributes([args[3]], args[4..]);
    if !IsQualifier(args[0]) && !IsQualifier(args[1]) && !IsQualifier(args[2]) {
      assert args[..3] == [args[0]] + [args[1]] + [args[2]];
      ParseQualifiersDistributes([args[0]] + [args[1]], [args[2]]);
      ParseQualifiersDistributes([args[0]], [args[1]]);
    }
  }
}

/** The professor's console: openEnrollments and cancelEnrollment take one
    argument each. */
module ProfessorCli {
  import opened Options
  import opened JavaText

  /** openEnrollments: exactly one argument, which parseInt accepts and
      which is not negative; zero is a valid capacity. */
  function OpenEnrollmentsCall(cmdArgs: seq<string>): (capacity: Option<int>)
    ensures capacity.Some? ==> |cmdArgs| == 2 && ParseInt(cmdArgs[1]) == capacity
    ensures capacity.Some? ==> 0 <= capacity.value <= INT_MAX
    ensures |cmdArgs| == 2 && ParseInt(cmdArgs[1]).Some? && ParseInt(cmdArgs[1]).value >= 0 ==> capacity.Some?
  {
    if |cmdArgs| != 2 then None
    else
      match ParseInt(cmdArgs[1])
      case None => None
      case Some(c) => if c < 0 then None else Some(c)
  }

  /** Any number of up to nine decimal digits is sent as its value. */
  lemma {:induction false} DecimalCapacitySent(command: string, digits: string)
    requires 1 <= |digits| <= 9 && AllDigits(digits)
    ensures OpenEnrollmentsCall([command, digits]) == Some(DigitsValue(digits))
  {
    ParseShortDigits(digits);
  }

  /** cancelEnrollment: exactly one argument, sent as it is. */
  function CancelEnrollmentCall(cmdArgs: seq<string>): (id: Option<string>)
    ensures id.Some? <==> |cmdArgs| == 2
    ensures id.Some? ==> id.value == cmdArgs[1]
  {
    if |cmdArgs| != 2 then None else Some(cmdArgs[1])
  }
}
