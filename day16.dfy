/** Ticket translation (day16/src/main.rs): field rules with two inclusive
    ranges each, the scan of the notes that collects invalid values and
    keeps the valid tickets, the candidate fields of every ticket position,
    their greedy assignment and the product of the departure fields. */
module TicketTranslation {
  import opened Outcomes
  import opened Counting

  // ===== rules =====

  /** The two inclusive ranges `lo1-hi1 or lo2-hi2` of a field rule. */
  datatype Ranges = Ranges(lo1: int, hi1: int, lo2: int, hi2: int)

  predicate Accepts(r: Ranges, n: int)
  {
    (n >= r.lo1 && n <= r.hi1) || (n >= r.lo2 && n <= r.hi2)
  }

  /** Some rule of the map accepts `n`. */
  predicate AnyAccepts(rules: map<string, Ranges>, n: int)
  {
    exists name :: name in rules && Accepts(rules[name], n)
  }

  /** The per-value flag of the scan: it is set when no rule accepts the
      value, the rules being visited in the map's own order. */
  method NoRuleAccepts(rules: map<string, Ranges>, n: int) returns (flag: bool)
    ensures flag <==> !AnyAccepts(rules, n)
  {
    flag := true;
    var keys := rules.Keys;
    while keys != {}
      invariant keys <= rules.Keys
      invariant flag <==> forall name :: name in rules && name !in keys ==> !Accepts(rules[name], n)
      decreases |keys|
    {
      var name :| name in keys;
      if Accepts(rules[name], n) {
        flag := false;
      }
      keys := keys - {name};
    }
  }

  /** The values of `ticket` that no rule accepts, in order. */
  function InvalidValues(rules: map<string, Ranges>, ticket: seq<int>): seq<int>
  {
    if ticket == [] then []
    else
      var last := ticket[|ticket| - 1];
      InvalidValues(rules, ticket[..|ticket| - 1]) + (if AnyAccepts(rules, last) then [] else [last])
  }

  predicate AllValid(rules: map<string, Ranges>, ticket: seq<int>)
  {
    forall k :: 0 <= k < |ticket| ==> AnyAccepts(rules, ticket[k])
  }

  /** A value is collected as invalid exactly when it is on the ticket and
      no rule accepts it, and a ticket is kept exactly when none is. */
  lemma {:induction false} InvalidValuesMeaning(rules: map<string, Ranges>, ticket: seq<int>)
    ensures forall x :: x in InvalidValues(rules, ticket) <==> x in ticket && !AnyAccepts(rules, x)
    ensures InvalidValues(rules, ticket) == [] <==> AllValid(rules, ticket)
  {
    if ticket != [] {
      var front := ticket[..|ticket| - 1];
      InvalidValuesMeaning(rules, front);
      assert ticket == front + [ticket[|ticket| - 1]];
      if AllValid(rules, ticket) {
        assert AllValid(rules, front);
      }
    }
  }

  function Sum(s: seq<int>): int
  {
    if s == [] then 0 else Sum(s[..|s| - 1]) + s[|s| - 1]
  }

  // ===== the scan of the notes =====

  /** One line of the notes. Parsing is done by a regular-expression
      library, so a line carries its text and what the parses give: `rule`
      is the field name and ranges captured from a rule line (`None` when a
      capture fails), `numbers` the comma-separated values (`None` when one
      of them is not a number). */
  datatype Line = Line(text: string, rule: Option<(string, Ranges)>, numbers: Option<seq<int>>)

  /** The state of the scan: the three mode flags, the rule map with the
      names in order of appearance, the invalid values and the kept
      tickets (the own ticket first). */
  datatype Notes = Notes(
    readingRules: bool, readingOwn: bool, readingOther: bool,
    rules: map<string, Ranges>, order: seq<string>,
    invalid: seq<int>, tickets: seq<seq<int>>)

  function Start(): Notes
  {
    Notes(true, false, false, map[], [], [], [])
  }

  /** A nearby ticket: its invalid values are collected, and the ticket is
      kept when it has none. */
  function Nearby(s: Notes, ticket: seq<int>): (r: Notes)
    ensures r.invalid == s.invalid + InvalidValues(s.rules, ticket)
    ensures r.tickets == if AllValid(s.rules, ticket) then s.tickets + [ticket] else s.tickets
  {
    s.(invalid := s.invalid + InvalidValues(s.rules, ticket),
       tickets := if AllValid(s.rules, ticket) then s.tickets + [ticket] else s.tickets)
  }

  /** One iteration of the scan loop. A blank line ends the rules unless a
      ticket header has been seen; the two headers switch the modes on; any
      other line is a rule while rules are read, and after that the own
      ticket (taken as it is, once) or a nearby ticket. A failed parse
      panics. */
  function StepLine(s: Notes, line: Line): Outcome<Notes>
  {
    if line.text == "" then
      Done(if !s.readingOwn && !s.readingOther then s.(readingRules := false) else s)
    else if line.text == "your ticket:" then Done(s.(readingOwn := true))
    else if line.text == "nearby tickets:" then Done(s.(readingOther := true))
    else if s.readingRules && line.rule.None? then Panic
    else
      var s1 := if s.readingRules then
        s.(rules := s.rules[line.rule.value.0 := line.rule.value.1], order := s.order + [line.rule.value.0])
      else s;
      if !s1.readingOwn && !s1.readingOther then Done(s1)
      else if line.numbers.None? then Panic
      else if s1.readingOwn then Done(s1.(readingOwn := false, tickets := s1.tickets + [line.numbers.value]))
      else Done(Nearby(s1, line.numbers.value))
  }

  /** The scan of all the lines, stopping at the first panic. */
  function ScanFrom(s: Notes, lines: seq<Line>): Outcome<Notes>
    decreases |lines|
  {
    if lines == [] then Done(s)
    else match StepLine(s, lines[0])
      case Panic => Panic
      case Done(s1) => ScanFrom(s1, lines[1..])
  }

  /** Every name in the rule order is a key of the rule map, and every key
      is in the order. */
  predicate OrderNamesRules(s: Notes)
  {
    (forall k :: 0 <= k < |s.order| ==> s.order[k] in s.rules) &&
    (forall name :: name in s.rules ==> name in s.order)
  }

  lemma StepKeepsOrder(s: Notes, line: Line)
    requires OrderNamesRules(s)
    ensures StepLine(s, line).Done? ==> OrderNamesRules(StepLine(s, line).value)
  {
  }

  lemma {:induction false} ScanKeepsOrder(s: Notes, lines: seq<Line>)
    requires OrderNamesRules(s)
    ensures ScanFrom(s, lines).Done? ==> OrderNamesRules(ScanFrom(s, lines).value)
    decreases |lines|
  {
    if lines != [] {
      StepKeepsOrder(s, lines[0]);
      if StepLine(s, lines[0]).Done? {
        ScanKeepsOrder(StepLine(s, lines[0]).value, lines[1..]);
      }
    }
  }

  /** The handling of a nearby ticket: a flag per value, the invalid values
      collected, and the ticket found valid when every flag says so. */
  method CheckTicket(rules: map<string, Ranges>, ticket: seq<int>) returns (invalid: seq<int>, valid: bool)
    ensures invalid == InvalidValues(rules, ticket)
    ensures valid <==> AllValid(rules, ticket)
  {
    var numbersValid: seq<bool> := [];
    invalid := [];
    for t := 0 to |ticket|
      invariant |numbersValid| == t
      invariant forall u :: 0 <= u < t ==> (numbersValid[u] <==> AnyAccepts(rules, ticket[u]))
      invariant invalid == InvalidValues(rules, ticket[..t])
    {
      var flag := NoRuleAccepts(rules, ticket[t]);
      numbersValid := numbersValid + [!flag];
      assert ticket[..t + 1][..t] == ticket[..t];
      if flag {
        invalid := invalid + [ticket[t]];
      }
    }
    assert ticket[..|ticket|] == ticket;
    valid := forall u :: 0 <= u < |numbersValid| ==> numbersValid[u];
  }

  /** The loop of `main` over the lines, up to the printing of the error
      rate. */
  method ScanNotes(lines: seq<Line>) returns (o: Outcome<Notes>)
    ensures o == ScanFrom(Start(), lines)
  {
    var readingRules, readingOwn, readingOther := true, false, false;
    var rules: map<string, Ranges> := map[];
    var order: seq<string> := [];
    var invalid: seq<int> := [];
    var tickets: seq<seq<int>> := [];
    for k := 0 to |lines|
      invariant ScanFrom(Start(), lines) ==
        ScanFrom(Notes(readingRules, readingOwn, readingOther, rules, order, invalid, tickets), lines[k..])
    {
      ghost var s := Notes(readingRules, readingOwn, readingOther, rules, order, invalid, tickets);
      var line := lines[k];
      assert lines[k..][1..] == lines[k + 1..];
      if line.text == "" {
        if !readingOwn && !readingOther {
          readingRules := false;
        }
        continue;
      }
      if line.text == "your ticket:" {
        readingOwn := true;
        continue;
      }
      if line.text == "nearby tickets:" {
        readingOther := true;
        continue;
      }
      if readingRules {
        if line.rule.None? {
          return Panic;
        }
        var (name, ranges) := line.rule.value;
        rules := rules[name := ranges];
        order := order + [name];
      }
      if readingOwn {
        readingOwn := false;
        if line.numbers.None? {
          return Panic;
        }
        tickets := tickets + [line.numbers.value];
        continue;
      }
      if readingOther {
        if line.numbers.None? {
          return Panic;
        }
        var ticket := line.numbers.value;
        var invalidHere, valid := CheckTicket(rules, ticket);
        invalid := invalid + invalidHere;
        if valid {
          tickets := tickets + [ticket];
        }
      }
    }
    o := Done(Notes(readingRules, readingOwn, readingOther, rules, order, invalid, tickets));
  }

  // ===== the shape of a document =====

  /** A line that is neither blank nor one of the two headers. */
  predicate Content(line: Line)
  {
    line.text != "" && line.text != "your ticket:" && line.text != "nearby tickets:"
  }

  lemma {:induction false} ScanConcat(s: Notes, a: seq<Line>, b: seq<Line>)
    ensures ScanFrom(s, a + b) == match ScanFrom(s, a)
      case Panic => Panic
      case Done(s1) => ScanFrom(s1, b)
    decreases |a|
  {
    if a == [] {
      assert a + b == b;
    } else {
      assert (a + b)[0] == a[0] && (a + b)[1..] == a[1..] + b;
      match StepLine(s, a[0])
      case Panic =>
      case Done(s1) => ScanConcat(s1, a[1..], b);
    }
  }

  /** The rules, given as their captures, entered into the map in order. */
  function AddRules(rules: map<string, Ranges>, captures: seq<(string, Ranges)>): map<string, Ranges>
    decreases |captures|
  {
    if captures == [] then rules
    else AddRules(rules[captures[0].0 := captures[0].1], captures[1..])
  }

  function Names(captures: seq<(string, Ranges)>): seq<string>
  {
    seq(|captures|, k requires 0 <= k < |captures| => captures[k].0)
  }

  function Captures(lines: seq<Line>): seq<(string, Ranges)>
    requires forall k :: 0 <= k < |lines| ==> lines[k].rule.Some?
  {
    seq(|lines|, k requires 0 <= k < |lines| => lines[k].rule.value)
  }

  /** While rules are read and no header has been seen, rule lines only add
      rules. */
  lemma {:induction false} ScanRuleLines(s: Notes, lines: seq<Line>)
    requires s.readingRules && !s.readingOwn && !s.readingOther
    requires forall k :: 0 <= k < |lines| ==> Content(lines[k]) && lines[k].rule.Some?
    ensures ScanFrom(s, lines) == Done(s.(rules := AddRules(s.rules, Captures(lines)), order := s.order + Names(Captures(lines))))
    decreases |lines|
  {
    if lines == [] {
      assert s.order + Names(Captures(lines)) == s.order;
    } else {
      var c := lines[0].rule.value;
      var s1 := s.(rules := s.rules[c.0 := c.1], order := s.order + [c.0]);
      assert StepLine(s, lines[0]) == Done(s1);
      assert ScanFrom(s, lines) == ScanFrom(s1, lines[1..]);
      ScanRuleLines(s1, lines[1..]);
      var cs := Captures(lines);
      assert cs[0] == c && cs[1..] == Captures(lines[1..]);
      assert AddRules(s.rules, cs) == AddRules(s1.rules, Captures(lines[1..]));
      assert Names(cs) == [c.0] + Names(Captures(lines[1..]));
      assert s.order + Names(cs) == s1.order + Names(Captures(lines[1..]));
    }
  }

  function AllInvalid(rules: map<string, Ranges>, nearby: seq<seq<int>>): seq<int>
    decreases |nearby|
  {
    if nearby == [] then [] else InvalidValues(rules, nearby[0]) + AllInvalid(rules, nearby[1..])
  }

  function ValidTickets(rules: map<string, Ranges>, nearby: seq<seq<int>>): seq<seq<int>>
    decreases |nearby|
  {
    if nearby == [] then []
    else (if AllValid(rules, nearby[0]) then [nearby[0]] else []) + ValidTickets(rules, nearby[1..])
  }

  function Numbers(lines: seq<Line>): seq<seq<int>>
    requires forall k :: 0 <= k < |lines| ==> lines[k].numbers.Some?
  {
    seq(|lines|, k requires 0 <= k < |lines| => lines[k].numbers.value)
  }

  /** In the nearby section every ticket line adds its invalid values and
      is kept when it has none. */
  lemma {:induction false} ScanNearbyLines(s: Notes, lines: seq<Line>)
    requires !s.readingRules && !s.readingOwn && s.readingOther
    requires forall k :: 0 <= k < |lines| ==> Content(lines[k]) && lines[k].numbers.Some?
    ensures ScanFrom(s, lines) == Done(s.(invalid := s.invalid + AllInvalid(s.rules, Numbers(lines)),
                                         tickets := s.tickets + ValidTickets(s.rules, Numbers(lines))))
    decreases |lines|
  {
    if lines == [] {
      assert s.invalid + [] == s.invalid && s.tickets + [] == s.tickets;
    } else {
      var t := lines[0].numbers.value;
      var s1 := Nearby(s, t);
      NearbyStep(s, lines[0]);
      assert ScanFrom(s, lines) == ScanFrom(s1, lines[1..]);
      ScanNearbyLines(s1, lines[1..]);
      NumbersTail(lines);
      NearbyAccumulate(s, t, Numbers(lines[1..]));
    }
  }

  /** The invalid values and kept tickets of one more nearby ticket. */
  lemma NearbyAccumulate(s: Notes, t: seq<int>, rest: seq<seq<int>>)
    ensures s.invalid + AllInvalid(s.rules, [t] + rest) == Nearby(s, t).invalid + AllInvalid(s.rules, rest)
    ensures s.tickets + ValidTickets(s.rules, [t] + rest) == Nearby(s, t).tickets + ValidTickets(s.rules, rest)
  {
    assert ([t] + rest)[0] == t && ([t] + rest)[1..] == rest;
  }

  lemma NearbyStep(s: Notes, line: Line)
    requires !s.readingRules && !s.readingOwn && s.readingOther
    requires Content(line) && line.numbers.Some?
    ensures StepLine(s, line) == Done(Nearby(s, line.numbers.value))
  {
  }

  lemma NumbersTail(lines: seq<Line>)
    requires forall k :: 0 <= k < |lines| ==> lines[k].numbers.Some?
    requires lines != []
    ensures Numbers(lines) == [lines[0].numbers.value] + Numbers(lines[1..])
  {
  }

  /** A document of rules, a blank line, the own ticket under its header, a
      blank line and the nearby tickets under theirs: the rules are those of
      the rule lines, the own ticket is kept first whatever its values, and
      the nearby tickets give the invalid values and the other kept
      tickets. */
  lemma ScanDocument(ruleLines: seq<Line>, blank1: Line, ownHeader: Line, own: Line,
                     blank2: Line, nearbyHeader: Line, nearby: seq<Line>)
    requires forall k :: 0 <= k < |ruleLines| ==> Content(ruleLines[k]) && ruleLines[k].rule.Some?
    requires blank1.text == "" && blank2.text == ""
    requires ownHeader.text == "your ticket:" && nearbyHeader.text == "nearby tickets:"
    requires Content(own) && own.numbers.Some?
    requires forall k :: 0 <= k < |nearby| ==> Content(nearby[k]) && nearby[k].numbers.Some?
    ensures var rules := AddRules(map[], Captures(ruleLines));
      ScanFrom(Start(), ruleLines + [blank1, ownHeader, own, blank2, nearbyHeader] + nearby) ==
      Done(Notes(false, false, true, rules, Names(Captures(ruleLines)),
                 AllInvalid(rules, Numbers(nearby)),
                 [own.numbers.value] + ValidTickets(rules, Numbers(nearby))))
  {
    var middle := [blank1, ownHeader, own, blank2, nearbyHeader];
    var s := ScanHead(ruleLines, blank1, ownHeader, own, blank2, nearbyHeader);
    ScanConcat(Start(), ruleLines + middle, nearby);
    ScanNearbyLines(s, nearby);
    assert s.invalid + AllInvalid(s.rules, Numbers(nearby)) == AllInvalid(s.rules, Numbers(nearby));
  }

  /** The scan up to the nearby tickets. */
  lemma ScanHead(ruleLines: seq<Line>, blank1: Line, ownHeader: Line, own: Line, blank2: Line, nearbyHeader: Line)
    returns (s: Notes)
    requires forall k :: 0 <= k < |ruleLines| ==> Content(ruleLines[k]) && ruleLines[k].rule.Some?
    requires blank1.text == "" && blank2.text == ""
    requires ownHeader.text == "your ticket:" && nearbyHeader.text == "nearby tickets:"
    requires Content(own) && own.numbers.Some?
    ensures s == Notes(false, false, true, AddRules(map[], Captures(ruleLines)), Names(Captures(ruleLines)), [], [own.numbers.value])
    ensures ScanFrom(Start(), ruleLines + [blank1, ownHeader, own, blank2, nearbyHeader]) == Done(s)
  {
    var middle := [blank1, ownHeader, own, blank2, nearbyHeader];
    ScanConcat(Start(), ruleLines, middle);
    ScanRuleLines(Start(), ruleLines);
    var s0 := Start().(rules := AddRules(map[], Captures(ruleLines)), order := Names(Captures(ruleLines)));
    assert [] + Names(Captures(ruleLines)) == Names(Captures(ruleLines));
    assert ScanFrom(Start(), ruleLines) == Done(s0);
    MiddleLines(s0, blank1, ownHeader, own, blank2, nearbyHeader);
    s := s0.(readingRules := false, readingOther := true, tickets := [own.numbers.value]);
  }

  /** The lines between the rules and the nearby tickets. */
  lemma MiddleLines(s: Notes, blank1: Line, ownHeader: Line, own: Line, blank2: Line, nearbyHeader: Line)
    requires s.readingRules && !s.readingOwn && !s.readingOther && s.tickets == []
    requires blank1.text == "" && blank2.text == ""
    requires ownHeader.text == "your ticket:" && nearbyHeader.text == "nearby tickets:"
    requires Content(own) && own.numbers.Some?
    ensures ScanFrom(s, [blank1, ownHeader, own, blank2, nearbyHeader]) ==
      Done(s.(readingRules := false, readingOther := true, tickets := [own.numbers.value]))
  {
    var lines := [blank1, ownHeader, own, blank2, nearbyHeader];
    var s1 := s.(readingRules := false);
    var s2 := s1.(readingOwn := true);
    var s3 := s2.(readingOwn := false, tickets := [own.numbers.value]);
    var s5 := s3.(readingOther := true);
    assert StepLine(s, blank1) == Done(s1);
    assert StepLine(s1, ownHeader) == Done(s2);
    assert s2.tickets + [own.numbers.value] == [own.numbers.value];
    assert StepLine(s2, own) == Done(s3);
    assert StepLine(s3, blank2) == Done(s3);
    assert StepLine(s3, nearbyHeader) == Done(s5);
    assert [nearbyHeader][1..] == [];
    assert ScanFrom(s3, [nearbyHeader]) == Done(s5);
    assert [blank2, nearbyHeader][1..] == [nearbyHeader];
    assert ScanFrom(s3, [blank2, nearbyHeader]) == Done(s5);
    assert [own, blank2, nearbyHeader][1..] == [blank2, nearbyHeader];
    assert ScanFrom(s2, [own, blank2, nearbyHeader]) == Done(s5);
    assert [ownHeader, own, blank2, nearbyHeader][1..] == [own, blank2, nearbyHeader];
    assert ScanFrom(s1, [ownHeader, own, blank2, nearbyHeader]) == Done(s5);
    assert lines[1..] == [ownHeader, own, blank2, nearbyHeader];
  }

  /** The error rate printed after the scan. */
  function ErrorRate(n: Notes): int
  {
    Sum(n.invalid)
  }

  function ExampleRules(): map<string, Ranges>
  {
    map["class" := Ranges(1, 3, 5, 7), "row" := Ranges(6, 11, 33, 44), "seat" := Ranges(13, 40, 45, 50)]
  }

  /** The example rules accept exactly the values of their six ranges. */
  lemma ExampleAccepts(n: int)
    ensures AnyAccepts(ExampleRules(), n) <==> 1 <= n <= 3 || 5 <= n <= 11 || 13 <= n <= 50
  {
    var r := ExampleRules();
    if 1 <= n <= 3 || 5 <= n <= 7 {
      assert Accepts(r["class"], n);
    } else if 6 <= n <= 11 || 33 <= n <= 44 {
      assert Accepts(r["row"], n);
    } else if 13 <= n <= 40 || 45 <= n <= 50 {
      assert Accepts(r["seat"], n);
    }
  }

  lemma ExampleTicket1()
    ensures InvalidValues(ExampleRules(), [7, 3, 47]) == [] && AllValid(ExampleRules(), [7, 3, 47])
  {
    ExampleAccepts(7); ExampleAccepts(3); ExampleAccepts(47);
    assert [7, 3, 47][..2] == [7, 3] && [7, 3][..1] == [7] && [7][..0] == [];
  }

  lemma ExampleTicket2()
    ensures InvalidValues(ExampleRules(), [40, 4, 50]) == [4] && !AllValid(ExampleRules(), [40, 4, 50])
  {
    ExampleAccepts(40); ExampleAccepts(4); ExampleAccepts(50);
    assert [40, 4, 50][..2] == [40, 4] && [40, 4][..1] == [40] && [40][..0] == [];
  }

  lemma ExampleTicket3()
    ensures InvalidValues(ExampleRules(), [55, 2, 20]) == [55] && !AllValid(ExampleRules(), [55, 2, 20])
  {
    ExampleAccepts(55); ExampleAccepts(2); ExampleAccepts(20);
    assert [55, 2, 20][..2] == [55, 2] && [55, 2][..1] == [55] && [55][..0] == [];
  }

  lemma ExampleTicket4()
    ensures InvalidValues(ExampleRules(), [38, 6, 12]) == [12] && !AllValid(ExampleRules(), [38, 6, 12])
  {
    ExampleAccepts(38); ExampleAccepts(6); ExampleAccepts(12);
    assert [38, 6, 12][..2] == [38, 6] && [38, 6][..1] == [38] && [38][..0] == [];
  }

  /** The first example: the values 4, 55 and 12 of the nearby tickets fit
      no rule, giving the error rate 71, and only the first nearby ticket is
      kept. */
  lemma ExampleErrorRate()
    ensures AllInvalid(ExampleRules(), [[7, 3, 47], [40, 4, 50], [55, 2, 20], [38, 6, 12]]) == [4, 55, 12]
    ensures ValidTickets(ExampleRules(), [[7, 3, 47], [40, 4, 50], [55, 2, 20], [38, 6, 12]]) == [[7, 3, 47]]
    ensures Sum([4, 55, 12]) == 71
  {
    ExampleNearby([[7, 3, 47], [40, 4, 50], [55, 2, 20], [38, 6, 12]]);
    assert [4, 55, 12][..2] == [4, 55] && [4, 55][..1] == [4] && [4][..0] == [];
  }

  lemma {:induction false} ExampleNearby(t: seq<seq<int>>)
    requires |t| == 4 && t[0] == [7, 3, 47] && t[1] == [40, 4, 50] && t[2] == [55, 2, 20] && t[3] == [38, 6, 12]
    ensures AllInvalid(ExampleRules(), t) == [4, 55, 12]
    ensures ValidTickets(ExampleRules(), t) == [[7, 3, 47]]
  {
    var r := ExampleRules();
    ExampleTicket1(); ExampleTicket2(); ExampleTicket3(); ExampleTicket4();
    assert t[4..] == [];
    NearbyFrom(r, t, 3);
    NearbyFrom(r, t, 2);
    NearbyFrom(r, t, 1);
    NearbyFrom(r, t, 0);
    assert t[0..] == t;
  }

  /** The nearby tickets from the `k`-th on. */
  lemma {:induction false} NearbyFrom(rules: map<string, Ranges>, t: seq<seq<int>>, k: nat)
    requires k < |t|
    ensures AllInvalid(rules, t[k..]) == InvalidValues(rules, t[k]) + AllInvalid(rules, t[k + 1..])
    ensures ValidTickets(rules, t[k..]) == (if AllValid(rules, t[k]) then [t[k]] else []) + ValidTickets(rules, t[k + 1..])
  {
    assert t[k..][0] == t[k] && t[k..][1..] == t[k + 1..];
  }

  // ===== columns and candidates =====

  /** Column `i`: the values at position `i` of the tickets, in order (a
      ticket too short for `i` adds nothing). */
  function Column(tickets: seq<seq<int>>, i: int): seq<int>
  {
    if tickets == [] then []
    else
      var last := tickets[|tickets| - 1];
      Column(tickets[..|tickets| - 1], i) + (if 0 <= i < |last| then [last[i]] else [])
  }

  /** Some ticket after the own one is longer than the own one: its extra
      positions have no entry in the table of values, and the lookup of one
      panics. */
  predicate LongTicket(tickets: seq<seq<int>>)
    requires |tickets| > 0
  {
    exists k :: 1 <= k < |tickets| && |tickets[k]| > |tickets[0]|
  }

  /** The table of values per position: one empty list per position of the
      own ticket, then the values of every other kept ticket appended
      position by position. */
  method Columns(tickets: seq<seq<int>>) returns (o: Outcome<seq<seq<int>>>)
    ensures o.Panic? <==> |tickets| == 0 || LongTicket(tickets)
    ensures o.Done? ==> |o.value| == |tickets[0]|
    ensures o.Done? ==> forall i :: 0 <= i < |o.value| ==> o.value[i] == Column(tickets[1..], i)
  {
    if |tickets| == 0 {
      return Panic;
    }
    var n := |tickets[0]|;
    var values: seq<seq<int>> := seq(n, i => []);
    for k := 1 to |tickets|
      invariant |values| == n
      invariant forall i :: 0 <= i < n ==> values[i] == Column(tickets[1..k], i)
      invariant forall q :: 1 <= q < k ==> |tickets[q]| <= n
    {
      var ticket := tickets[k];
      ghost var before := values;
      for idx := 0 to |ticket|
        invariant idx <= n
        invariant |values| == n
        invariant forall i :: 0 <= i < n ==> values[i] == before[i] + (if i < idx && i < |ticket| then [ticket[i]] else [])
      {
        if idx >= n {
          assert LongTicket(tickets);
          return Panic;
        }
        values := values[idx := values[idx] + [ticket[idx]]];
      }
      assert tickets[1..k + 1][..k - 1] == tickets[1..k];
      assert tickets[1..k + 1][k - 1] == ticket;
    }
    assert tickets[1..|tickets|] == tickets[1..];
    o := Done(values);
  }

  /** The rules of `order` that accept every value of `column`, in order. */
  function CandidatesFor(rules: map<string, Ranges>, order: seq<string>, column: seq<int>): seq<string>
    requires forall k :: 0 <= k < |order| ==> order[k] in rules
  {
    if order == [] then []
    else
      var name := order[|order| - 1];
      CandidatesFor(rules, order[..|order| - 1], column) +
        (if forall v :: v in column ==> Accepts(rules[name], v) then [name] else [])
  }

  /** `f` picks, in increasing order, the positions of `t` that make up `s`. */
  ghost predicate Embeds(f: seq<int>, s: seq<string>, t: seq<string>)
  {
    |f| == |s| && (forall k :: 0 <= k < |f| ==> 0 <= f[k] < |t| && s[k] == t[f[k]]) &&
    forall k, l :: 0 <= k < l < |f| ==> f[k] < f[l]
  }

  /** `s` is `t` with some elements left out. */
  ghost predicate Subsequence(s: seq<string>, t: seq<string>)
  {
    exists f: seq<int> :: Embeds(f, s, t)
  }

  /** An embedding survives appending to the longer sequence. */
  lemma EmbedsWiden(f: seq<int>, s: seq<string>, t: seq<string>, x: string)
    requires Embeds(f, s, t)
    ensures Embeds(f, s, t + [x])
  {
    assert forall k :: 0 <= k < |f| ==> (t + [x])[f[k]] == t[f[k]];
  }

  /** An embedding extends when both sequences get the same last element. */
  lemma EmbedsSnoc(f: seq<int>, s: seq<string>, t: seq<string>, x: string)
    requires Embeds(f, s, t)
    ensures Embeds(f + [|t|], s + [x], t + [x])
  {
    EmbedsWiden(f, s, t, x);
  }

  /** The candidates are exactly the rules accepting the whole column. */
  lemma {:induction false} CandidatesMeaning(rules: map<string, Ranges>, order: seq<string>, column: seq<int>)
    requires forall k :: 0 <= k < |order| ==> order[k] in rules
    ensures forall name :: name in CandidatesFor(rules, order, column) <==>
      name in order && forall v :: v in column ==> Accepts(rules[name], v)
  {
    if order != [] {
      var front := order[..|order| - 1];
      CandidatesMeaning(rules, front, column);
      assert order == front + [order[|order| - 1]];
    }
  }

  /** The candidates keep the order of the rules. */
  lemma {:induction false} CandidatesInOrder(rules: map<string, Ranges>, order: seq<string>, column: seq<int>)
    requires forall k :: 0 <= k < |order| ==> order[k] in rules
    ensures Subsequence(CandidatesFor(rules, order, column), order)
  {
    if order == [] {
      assert Embeds([], [], []);
    } else {
      var front := order[..|order| - 1];
      var name := order[|order| - 1];
      assert order == front + [name];
      CandidatesInOrder(rules, front, column);
      var cf := CandidatesFor(rules, front, column);
      var f :| Embeds(f, cf, front);
      if forall v :: v in column ==> Accepts(rules[name], v) {
        assert CandidatesFor(rules, order, column) == cf + [name];
        EmbedsSnoc(f, cf, front, name);
        assert Embeds(f + [|front|], CandidatesFor(rules, order, column), order);
      } else {
        assert CandidatesFor(rules, order, column) == cf;
        EmbedsWiden(f, cf, front, name);
        assert Embeds(f, CandidatesFor(rules, order, column), order);
      }
    }
  }

  /** `rule_idx`: for every position, the candidate rules of its column. */
  method Candidates(rules: map<string, Ranges>, order: seq<string>, values: seq<seq<int>>)
    returns (ruleIdx: seq<seq<string>>)
    requires forall k :: 0 <= k < |order| ==> order[k] in rules
    ensures |ruleIdx| == |values|
    ensures forall i :: 0 <= i < |values| ==> ruleIdx[i] == CandidatesFor(rules, order, values[i])
  {
    ruleIdx := [];
    for i := 0 to |values|
      invariant |ruleIdx| == i
      invariant forall q :: 0 <= q < i ==> ruleIdx[q] == CandidatesFor(rules, order, values[q])
    {
      var valuev := values[i];
      var names: seq<string> := [];
      for k := 0 to |order|
        invariant names == CandidatesFor(rules, order[..k], valuev)
      {
        var rule := rules[order[k]];
        var flag := forall v :: v in valuev ==> Accepts(rule, v);
        assert order[..k + 1][..k] == order[..k];
        if flag {
          names := names + [order[k]];
        }
      }
      assert order[..|order|] == order;
      ruleIdx := ruleIdx + [names];
    }
  }

  // ===== the greedy assignment =====

  /** The first of `names` not yet taken, or the empty name when every
      one is. */
  function FirstFree(names: seq<string>, taken: map<string, int>): string
  {
    if names == [] then ""
    else if names[0] !in taken then names[0]
    else FirstFree(names[1..], taken)
  }

  /** The name found is the first untaken one of `names`, or every name of
      `names` is taken and the name found is the empty one. */
  lemma {:induction false} FirstFreeMeaning(names: seq<string>, taken: map<string, int>)
    ensures var r := FirstFree(names, taken);
      (exists k :: 0 <= k < |names| && names[k] == r && r !in taken &&
        forall u :: 0 <= u < k ==> names[u] in taken) ||
      (r == "" && forall u :: 0 <= u < |names| ==> names[u] in taken)
  {
    if names == [] {
    } else if names[0] !in taken {
      assert 0 < |names| && names[0] == FirstFree(names, taken);
    } else {
      var tail := names[1..];
      FirstFreeMeaning(tail, taken);
      var r := FirstFree(tail, taken);
      assert forall u :: 1 <= u < |names| ==> names[u] == tail[u - 1];
      if r == "" && forall u :: 0 <= u < |tail| ==> tail[u] in taken {
      } else {
        var k :| 0 <= k < |tail| && tail[k] == r && r !in taken &&
          forall u :: 0 <= u < k ==> tail[u] in taken;
        assert names[k + 1] == r;
      }
    }
  }

  /** Every entry of `options` is a position below `n`. */
  predicate InRange(options: seq<int>, n: int)
  {
    forall k :: 0 <= k < |options| ==> 0 <= options[k] < n
  }

  /** `final_indexes` after the positions of `options` have been handled in
      order, each taking the first of its candidates not yet taken. */
  function Greedy(cands: seq<seq<string>>, options: seq<int>): (r: map<string, int>)
    requires InRange(options, |cands|)
    ensures forall name :: name in r ==> r[name] in options
  {
    if options == [] then map[]
    else
      var m := Greedy(cands, options[..|options| - 1]);
      var i := options[|options| - 1];
      m[FirstFree(cands[i], m) := i]
  }

  /** The assignment loop. */
  method Assign(cands: seq<seq<string>>, options: seq<int>) returns (finalIndexes: map<string, int>)
    requires InRange(options, |cands|)
    ensures finalIndexes == Greedy(cands, options)
  {
    finalIndexes := map[];
    for k := 0 to |options|
      invariant finalIndexes == Greedy(cands, options[..k])
    {
      var i := options[k];
      var names := cands[i];
      var finalName := "";
      var t := 0;
      while t < |names|
        invariant 0 <= t <= |names|
        invariant FirstFree(names, finalIndexes) == FirstFree(names[t..], finalIndexes)
        decreases |names| - t
      {
        assert names[t..][1..] == names[t + 1..];
        if names[t] !in finalIndexes {
          finalName := names[t];
          break;
        }
        t := t + 1;
      }
      assert finalName == FirstFree(names, finalIndexes);
      assert options[..k + 1][..k] == options[..k];
      finalIndexes := finalIndexes[finalName := i];
    }
    assert options[..|options|] == options;
  }

  /** No name occurs twice in `names`. */
  predicate NoRepeats(names: seq<string>)
  {
    forall k, l :: 0 <= k < l < |names| ==> names[k] != names[l]
  }

  lemma {:induction false} NoRepeatsSize(names: seq<string>)
    requires NoRepeats(names)
    ensures |set x | x in names| == |names|
  {
    if names != [] {
      var front := names[..|names| - 1];
      var last := names[|names| - 1];
      NoRepeatsSize(front);
      assert (set x | x in names) == (set x | x in front) + {last};
      assert last !in (set x | x in front);
    }
  }

  /** When the position handled `k`-th has more than `k` candidates, none of
      them repeated (as when the sorted candidate counts run 1, 2, ..., n),
      every step finds a name not yet taken: the assignment gets one entry
      per position handled, and every name goes to a position that lists it
      among its candidates. */
  lemma {:induction false} GreedyFills(cands: seq<seq<string>>, options: seq<int>)
    requires InRange(options, |cands|)
    requires forall k :: 0 <= k < |options| ==> |cands[options[k]]| > k && NoRepeats(cands[options[k]])
    ensures |Greedy(cands, options)| == |options|
    ensures forall name :: name in Greedy(cands, options) ==> name in cands[Greedy(cands, options)[name]]
  {
    if options != [] {
      var front := options[..|options| - 1];
      var i := options[|options| - 1];
      assert forall k :: 0 <= k < |front| ==> front[k] == options[k];
      GreedyFills(cands, front);
      var m := Greedy(cands, front);
      var names := cands[i];
      var free := set x | x in names;
      NoRepeatsSize(names);
      if free <= m.Keys {
        SubsetSize(free, m.Keys);
        assert false;
      }
      var y :| y in free && y !in m;
      var u :| 0 <= u < |names| && names[u] == y;
      FirstFreeMeaning(names, m);
      var r := FirstFree(names, m);
      assert r !in m && r in names;
      assert Greedy(cands, options) == m[r := i];
    }
  }

  /** The order in which the positions are handled: every position below
      `n` once. */
  predicate Positions(options: seq<int>, n: int)
  {
    |options| == n && InRange(options, n) &&
    forall k, l :: 0 <= k < l < |options| ==> options[k] != options[l]
  }

  /** `options_order` after `sort_by_key`: the candidate counts never
      decrease along it. */
  predicate SortedByCount(cands: seq<seq<string>>, options: seq<int>)
    requires InRange(options, |cands|)
  {
    forall k, l :: 0 <= k < l < |options| ==> |cands[options[k]]| <= |cands[options[l]]|
  }

  // ===== the departure product =====

  /** Whether `sub` occurs in `s` as a contiguous piece. */
  predicate Contains(s: string, sub: string)
  {
    sub <= s || (s != [] && Contains(s[1..], sub))
  }

  /** Every position in `m` indexes a ticket of length `n`. */
  predicate IndexesIn(m: map<string, int>, n: int)
  {
    forall name :: name in m ==> 0 <= m[name] < n
  }

  /** What field `name` contributes to the product: its value on the own
      ticket when its name contains `departure`, and 1 otherwise. */
  function Factor(m: map<string, int>, own: seq<int>, name: string): int
    requires IndexesIn(m, |own|) && name in m
  {
    if Contains(name, "departure") then own[m[name]] else 1
  }

  /** Some field of a non-empty set. */
  ghost function Pick(names: set<string>): (name: string)
    requires names != {}
    ensures name in names
  {
    var name :| name in names; name
  }

  /** The product of the factors of the fields in `names`, in no
      particular order. */
  ghost function ProductOver(m: map<string, int>, own: seq<int>, names: set<string>): int
    requires IndexesIn(m, |own|) && names <= m.Keys
  {
    if names == {} then 1
    else Factor(m, own, Pick(names)) * ProductOver(m, own, names - {Pick(names)})
  }

  /** Any field can be taken out first: the product does not depend on the
      order in which the map is visited. */
  lemma {:induction false} ProductRemove(m: map<string, int>, own: seq<int>, names: set<string>, y: string)
    requires IndexesIn(m, |own|) && names <= m.Keys && y in names
    ensures ProductOver(m, own, names) == Factor(m, own, y) * ProductOver(m, own, names - {y})
    decreases names
  {
    var x := Pick(names);
    if x != y {
      var rest := names - {x} - {y};
      assert names - {y} - {x} == rest;
      ProductRemove(m, own, names - {x}, y);
      ProductRemove(m, own, names - {y}, x);
      var fx, fy, p := Factor(m, own, x), Factor(m, own, y), ProductOver(m, own, rest);
      assert ProductOver(m, own, names) == fx * (fy * p);
      MulSwap(fx, fy, p);
    }
  }

  lemma MulAssoc(a: int, b: int, c: int)
    ensures a * (b * c) == (a * b) * c
  {
  }

  lemma MulSwap(a: int, b: int, c: int)
    ensures a * (b * c) == b * (a * c)
  {
  }

  /** Fields whose names do not contain `departure` leave the product
      at 1. */
  lemma {:induction false} NoDeparture(m: map<string, int>, own: seq<int>, names: set<string>)
    requires IndexesIn(m, |own|) && names <= m.Keys
    requires forall name :: name in names ==> !Contains(name, "departure")
    ensures ProductOver(m, own, names) == 1
    decreases names
  {
    if names != {} {
      NoDeparture(m, own, names - {Pick(names)});
    }
  }

  /** The final loop over `final_indexes`, visited in whatever order the map
      gives. */
  method DepartureProduct(m: map<string, int>, own: seq<int>) returns (product: int)
    requires IndexesIn(m, |own|)
    ensures product == ProductOver(m, own, m.Keys)
  {
    product := 1;
    var rest := m.Keys;
    while rest != {}
      invariant rest <= m.Keys
      invariant product * ProductOver(m, own, rest) == ProductOver(m, own, m.Keys)
      decreases rest
    {
      var name :| name in rest;
      ProductRemove(m, own, rest, name);
      ghost var tail := ProductOver(m, own, rest - {name});
      if Contains(name, "departure") {
        MulAssoc(product, own[m[name]], tail);
        product := product * own[m[name]];
      }
      rest := rest - {name};
    }
  }

  // ===== part two =====

  /** The candidate list of every position of the own ticket, from the
      columns of the other kept tickets. */
  function CandidateTable(rules: map<string, Ranges>, order: seq<string>, tickets: seq<seq<int>>): (r: seq<seq<string>>)
    requires forall k :: 0 <= k < |order| ==> order[k] in rules
    requires |tickets| > 0
    ensures |r| == |tickets[0]|
  {
    seq(|tickets[0]|, i requires 0 <= i < |tickets[0]| => CandidatesFor(rules, order, Column(tickets[1..], i)))
  }

  /** Part two of `main`: the table of values, the candidates, the check
      that there is one position per rule, the assignment, the check that
      every rule got a position, and the product. `options` is the order of
      the positions after sorting the map's entries by candidate count; as
      the map's own iteration order is unspecified, so is the order among
      equal counts, and any such order may be passed. */
  method FieldProduct(rules: map<string, Ranges>, order: seq<string>, tickets: seq<seq<int>>, options: seq<int>)
    returns (o: Outcome<int>)
    requires forall k :: 0 <= k < |order| ==> order[k] in rules
    requires |tickets| > 0 ==>
      Positions(options, |tickets[0]|) && SortedByCount(CandidateTable(rules, order, tickets), options)
    ensures o.Panic? <==> (|tickets| == 0 || LongTicket(tickets) || |tickets[0]| != |rules| ||
      |Greedy(CandidateTable(rules, order, tickets), options)| != |rules|)
    ensures o.Done? ==> |tickets| > 0 && IndexesIn(Greedy(CandidateTable(rules, order, tickets), options), |tickets[0]|)
    ensures o.Done? ==> o.value == ProductOver(Greedy(CandidateTable(rules, order, tickets), options), tickets[0],
      Greedy(CandidateTable(rules, order, tickets), options).Keys)
  {
    var values := Columns(tickets);
    if values.Panic? {
      return Panic;
    }
    var ruleIdx := Candidates(rules, order, values.value);
    assert ruleIdx == CandidateTable(rules, order, tickets);
    if |ruleIdx| != |rules| {
      return Panic;
    }
    var finalIndexes := Assign(ruleIdx, options);
    if |finalIndexes| != |rules| {
      return Panic;
    }
    var product := DepartureProduct(finalIndexes, tickets[0]);
    return Done(product);
  }

  /** The rules of the second example. */
  function FieldRules(): map<string, Ranges>
  {
    map["class" := Ranges(0, 1, 4, 19), "row" := Ranges(0, 5, 8, 19), "seat" := Ranges(0, 13, 16, 19)]
  }

  /** The candidates among three rules. */
  lemma CandidatesOfThree(rules: map<string, Ranges>, order: seq<string>, column: seq<int>, a: bool, b: bool, c: bool)
    requires |order| == 3 && order[0] in rules && order[1] in rules && order[2] in rules
    requires a == forall v :: v in column ==> Accepts(rules[order[0]], v)
    requires b == forall v :: v in column ==> Accepts(rules[order[1]], v)
    requires c == forall v :: v in column ==> Accepts(rules[order[2]], v)
    ensures CandidatesFor(rules, order, column) ==
      (if a then [order[0]] else []) + (if b then [order[1]] else []) + (if c then [order[2]] else [])
  {
    assert order[..2][..1] == order[..1] && order[..1][..0] == [];
    assert order[..2][1] == order[1] && order[..1][0] == order[0];
    var one := CandidatesFor(rules, order[..1], column);
    assert CandidatesFor(rules, order[..1][..0], column) == [];
    assert |order[..1]| == 1 && order[..1][|order[..1]| - 1] == order[0];
    assert one == (if a then [order[0]] else []);
    var two := CandidatesFor(rules, order[..2], column);
    assert two == one + (if b then [order[1]] else []);
    assert CandidatesFor(rules, order, column) == two + (if c then [order[2]] else []);
  }

  /** In the second example the columns `3,15,5`, `9,1,14` and `18,5,9`
      admit one, two and three fields. */
  lemma ExampleCandidates()
    ensures CandidatesFor(FieldRules(), ["class", "row", "seat"], [3, 15, 5]) == ["row"]
    ensures CandidatesFor(FieldRules(), ["class", "row", "seat"], [9, 1, 14]) == ["class", "row"]
    ensures CandidatesFor(FieldRules(), ["class", "row", "seat"], [18, 5, 9]) == ["class", "row", "seat"]
  {
    ExampleFirstColumn();
    ExampleSecondColumn();
    CandidatesOfThree(FieldRules(), ["class", "row", "seat"], [18, 5, 9], true, true, true);
  }

  /** `3` is no `class` and `15` no `seat`: only `row` is left. */
  lemma ExampleFirstColumn()
    ensures CandidatesFor(FieldRules(), ["class", "row", "seat"], [3, 15, 5]) == ["row"]
  {
    var r := FieldRules();
    assert 3 in [3, 15, 5] && !Accepts(r["class"], 3);
    assert 15 in [3, 15, 5] && !Accepts(r["seat"], 15);
    CandidatesOfThree(r, ["class", "row", "seat"], [3, 15, 5], false, true, false);
  }

  /** `14` is no `seat`. */
  lemma ExampleSecondColumn()
    ensures CandidatesFor(FieldRules(), ["class", "row", "seat"], [9, 1, 14]) == ["class", "row"]
  {
    var r := FieldRules();
    assert 14 in [9, 1, 14] && !Accepts(r["seat"], 14);
    CandidatesOfThree(r, ["class", "row", "seat"], [9, 1, 14], true, true, false);
  }

  /** The assignment then gives `row` the first position, `class` the
      second and `seat` the third. */
  lemma ExampleAssignment()
    ensures Greedy([["row"], ["class", "row"], ["class", "row", "seat"]], [0, 1, 2]) ==
      map["row" := 0, "class" := 1, "seat" := 2]
  {
    assert [0, 1, 2][..2] == [0, 1] && [0, 1][..1] == [0] && [0][..0] == [];
    assert FirstFree(["row"], map[]) == "row";
    assert FirstFree(["class", "row"], map["row" := 0]) == "class";
    assert ["class", "row", "seat"][1..] == ["row", "seat"] && ["row", "seat"][1..] == ["seat"];
    assert FirstFree(["class", "row", "seat"], map["row" := 0, "class" := 1]) == "seat";
  }
}
