/** Custom customs (day6/src/main.rs): each person's line lists the
    questions (letters) they answered "yes" to; a group's count is the
    number of questions anyone in it answered, kept as 26 flags that are
    reset at every blank line, and the answer is the sum over the groups. */
module CustomCustoms {
  import opened Outcomes

  // ===== letters and flags =====

  /** `c.to_digit(36).unwrap() as usize - 10`: a letter of either case
      gives its place in the alphabet; a digit underflows and any other
      character fails the `unwrap`, both panics. */
  function LetterIndex(c: char): (r: Option<nat>)
    ensures r.Some? <==> 'a' <= c <= 'z' || 'A' <= c <= 'Z'
    ensures r.Some? ==> r.value < 26
  {
    if 'a' <= c <= 'z' then Some(c as int - 'a' as int)
    else if 'A' <= c <= 'Z' then Some(c as int - 'A' as int)
    else None
  }

  /** Every character of `s` has a flag among the first `n`. */
  predicate Fits(s: string, n: nat)
  {
    forall k :: 0 <= k < |s| ==> LetterIndex(s[k]).Some? && LetterIndex(s[k]).value < n
  }

  /** The questions named in `s`. */
  ghost function Answered(s: string): set<nat>
  {
    set i: nat | i < 26 && exists k :: 0 <= k < |s| && LetterIndex(s[k]) == Some(i)
  }

  /** The flags after the questions of `s` have been set. */
  ghost function Mark(flags: seq<bool>, s: string): (m: seq<bool>)
    ensures |m| == |flags|
  {
    seq(|flags|, i requires 0 <= i < |flags| => flags[i] || i in Answered(s))
  }

  /** Marking only ever sets flags. */
  lemma MarkMonotone(flags: seq<bool>, s: string)
    ensures forall i :: 0 <= i < |flags| && flags[i] ==> Mark(flags, s)[i]
  {
  }

  /** Marking the same answers twice changes nothing. */
  lemma MarkIdempotent(flags: seq<bool>, s: string)
    ensures Mark(Mark(flags, s), s) == Mark(flags, s)
  {
  }

  /** The answers of two lines mark what their concatenation marks. */
  lemma AnsweredConcat(s: string, t: string)
    ensures Answered(s + t) == Answered(s) + Answered(t)
  {
    forall i: nat | i in Answered(s + t)
      ensures i in Answered(s) + Answered(t)
    {
      var k :| 0 <= k < |s + t| && LetterIndex((s + t)[k]) == Some(i);
      if k >= |s| {
        assert t[k - |s|] == (s + t)[k];
      }
    }
    forall i: nat | i in Answered(s) + Answered(t)
      ensures i in Answered(s + t)
    {
      if i in Answered(s) {
        var k :| 0 <= k < |s| && LetterIndex(s[k]) == Some(i);
        assert (s + t)[k] == s[k];
      } else {
        var k :| 0 <= k < |t| && LetterIndex(t[k]) == Some(i);
        assert (s + t)[|s| + k] == t[k];
      }
    }
  }

  /** Marking one line and then another is marking both at once. */
  lemma MarkConcat(flags: seq<bool>, s: string, t: string)
    ensures Mark(Mark(flags, s), t) == Mark(flags, s + t)
  {
    AnsweredConcat(s, t);
  }

  /** `check_question`: set the flag of every character of the line. It
      panics (`ok` false) on a character with no flag; otherwise every
      named question is set and no other flag changes. */
  method CheckQuestion(qs: array<bool>, s: string) returns (ok: bool)
    modifies qs
    ensures ok <==> Fits(s, qs.Length)
    ensures ok ==> qs[..] == Mark(old(qs[..]), s)
  {
    ghost var flags := qs[..];
    for t := 0 to |s|
      invariant Fits(s[..t], qs.Length)
      invariant qs[..] == Mark(flags, s[..t])
    {
      assert s[..t + 1] == s[..t] + [s[t]];
      var idx := LetterIndex(s[t]);
      if idx.None? || idx.value >= qs.Length {
        return false;
      }
      assert Answered([s[t]]) == {idx.value};
      MarkConcat(flags, s[..t], [s[t]]);
      qs[idx.value] := true;
    }
    assert s[..|s|] == s;
    ok := true;
  }

  // ===== counting =====

  /** The number of set flags. */
  function CountTrue(flags: seq<bool>): (n: nat)
    ensures n <= |flags|
  {
    if flags == [] then 0 else CountTrue(flags[..|flags| - 1]) + (if flags[|flags| - 1] then 1 else 0)
  }

  /** The positions of the set flags. */
  ghost function SetFlags(flags: seq<bool>): set<nat>
  {
    set i: nat | i < |flags| && flags[i]
  }

  /** Counting the flags is counting the questions they stand for. */
  lemma {:induction false} CountTrueIsSize(flags: seq<bool>)
    ensures CountTrue(flags) == |SetFlags(flags)|
  {
    if flags != [] {
      var front := flags[..|flags| - 1];
      CountTrueIsSize(front);
      var last := |flags| - 1;
      if flags[last] {
        assert SetFlags(flags) == SetFlags(front) + {last};
      } else {
        assert SetFlags(flags) == SetFlags(front);
      }
    }
  }

  /** `sum`: the number of questions answered, at most the number of
      flags. */
  method Sum(qs: array<bool>) returns (t: nat)
    ensures t == |SetFlags(qs[..])| && t <= qs.Length
  {
    t := 0;
    for i := 0 to qs.Length
      invariant t == CountTrue(qs[..i])
    {
      assert qs[..i + 1][..i] == qs[..i];
      if qs[i] {
        t := t + 1;
      }
    }
    assert qs[..qs.Length] == qs[..];
    CountTrueIsSize(qs[..]);
  }

  // ===== groups =====

  /** The reference total: the lines are read in order, `seen` holding the
      questions answered in the current group; a blank line closes a group
      and adds its count; the last group is added at the end. A line with a
      character that is not a letter panics. */
  ghost function Total(lines: seq<string>, seen: set<nat>): Outcome<nat>
  {
    if lines == [] then Done(|seen|)
    else if lines[0] == "" then
      match Total(lines[1..], {})
      case Panic => Panic
      case Done(n) => Done(|seen| + n)
    else if !Fits(lines[0], 26) then Panic
    else Total(lines[1..], seen + Answered(lines[0]))
  }

  function Plus(n: nat, r: Outcome<nat>): Outcome<nat>
  {
    match r
    case Panic => Panic
    case Done(m) => Done(n + m)
  }

  lemma PlusAssoc(a: nat, b: nat, r: Outcome<nat>)
    ensures Plus(a, Plus(b, r)) == Plus(a + b, r)
  {
  }

  /** The flags of a group are the questions answered in it. */
  lemma MarkAll(flags: seq<bool>, s: string)
    requires |flags| == 26 && Fits(s, 26)
    ensures SetFlags(Mark(flags, s)) == SetFlags(flags) + Answered(s)
  {
  }

  lemma NoFlags(flags: seq<bool>)
    requires forall i :: 0 <= i < |flags| ==> !flags[i]
    ensures SetFlags(flags) == {}
  {
  }

  /** `[false; 26]`: a group with no question answered yet. */
  method NoAnswers() returns (qs: array<bool>)
    ensures fresh(qs) && qs.Length == 26 && SetFlags(qs[..]) == {}
  {
    qs := new bool[26](_ => false);
    NoFlags(qs[..]);
  }

  /** One line of the reference total, read at position `i`. */
  lemma TotalStep(lines: seq<string>, i: nat, seen: set<nat>)
    requires i < |lines|
    ensures lines[i] == "" ==> Total(lines[i..], seen) == Plus(|seen|, Total(lines[i + 1..], {}))
    ensures lines[i] != "" && !Fits(lines[i], 26) ==> Total(lines[i..], seen) == Panic
    ensures lines[i] != "" && Fits(lines[i], 26) ==>
      Total(lines[i..], seen) == Total(lines[i + 1..], seen + Answered(lines[i]))
  {
    assert lines[i..][1..] == lines[i + 1..];
  }

  /** What is still to be added after `i` lines, on top of `total` and with
      the current group's questions `seen`, makes up the whole total. */
  ghost predicate Remaining(lines: seq<string>, i: nat, total: nat, seen: set<nat>)
    requires i <= |lines|
  {
    Plus(total, Total(lines[i..], seen)) == Total(lines, {})
  }

  /** A blank line adds the group's count and starts an empty group. */
  lemma BlankLine(lines: seq<string>, i: nat, total: nat, seen: set<nat>)
    requires i < |lines| && lines[i] == "" && Remaining(lines, i, total, seen)
    ensures Remaining(lines, i + 1, total + |seen|, {})
  {
    TotalStep(lines, i, seen);
    PlusAssoc(total, |seen|, Total(lines[i + 1..], {}));
  }

  /** A line of letters adds its questions to the group's flags; any
      other line panics. */
  lemma AnswerLine(lines: seq<string>, i: nat, total: nat, before: seq<bool>, after: seq<bool>)
    requires i < |lines| && lines[i] != "" && |before| == 26
    requires Remaining(lines, i, total, SetFlags(before))
    requires Fits(lines[i], 26) ==> after == Mark(before, lines[i])
    ensures Fits(lines[i], 26) ==> Remaining(lines, i + 1, total, SetFlags(after))
    ensures !Fits(lines[i], 26) ==> Total(lines, {}) == Panic
  {
    TotalStep(lines, i, SetFlags(before));
    if Fits(lines[i], 26) {
      MarkAll(before, lines[i]);
    }
  }

  /** One line of the loop of `main`: a blank line adds the group's count
      and starts new flags; any other line sets the flags of its
      questions, or panics. */
  method ReadLine(lines: seq<string>, i: nat, questions: array<bool>, total: nat, ghost seen: set<nat>)
    returns (next: array<bool>, newTotal: nat, ghost newSeen: set<nat>, ok: bool)
    requires i < |lines| && questions.Length == 26 && SetFlags(questions[..]) == seen
    requires Remaining(lines, i, total, seen)
    modifies questions
    ensures next.Length == 26 && (next == questions || fresh(next))
    ensures ok ==> SetFlags(next[..]) == newSeen && Remaining(lines, i + 1, newTotal, newSeen)
    ensures !ok ==> Total(lines, {}) == Panic
  {
    if lines[i] == "" {
      var sum := Sum(questions);
      BlankLine(lines, i, total, seen);
      newTotal := total + sum;
      next := NoAnswers();
      newSeen := {};
      ok := true;
    } else {
      ghost var before := questions[..];
      ok := CheckQuestion(questions, lines[i]);
      AnswerLine(lines, i, total, before, questions[..]);
      next, newTotal, newSeen := questions, total, SetFlags(questions[..]);
    }
  }

  /** The loop of `main`: count each group with `sum` at its blank line
      and reset the flags, and add the last group after the loop. */
  method CustomsTotal(lines: seq<string>) returns (r: Outcome<nat>)
    ensures r == Total(lines, {})
  {
    var questions := NoAnswers();
    var total := 0;
    ghost var seen: set<nat> := {};
    assert lines[0..] == lines;
    for i := 0 to |lines|
      invariant fresh(questions) && questions.Length == 26
      invariant SetFlags(questions[..]) == seen
      invariant Remaining(lines, i, total, seen)
    {
      var ok;
      questions, total, seen, ok := ReadLine(lines, i, questions, total, seen);
      if !ok {
        return Panic;
      }
    }
    assert Total(lines[|lines|..], seen) == Done(|seen|) by {
      assert lines[|lines|..] == [];
    }
    var sum := Sum(questions);
    total := total + sum;
    r := Done(total);
  }

  /** A group's count is the number of different questions anyone in it
      answered, whatever order and repetition the lines have. */
  lemma GroupCount(a: string, b: string)
    requires a != "" && b != "" && Fits(a, 26) && Fits(b, 26)
    ensures Total([a, b], {}) == Done(|Answered(a + b)|)
    ensures Total([a, b], {}) == Total([b, a], {}) && Total([a, a], {}) == Total([a], {})
  {
    AnsweredConcat(a, b);
    var A, B := Answered(a), Answered(b);
    assert [a, b][1..] == [b] && [b, a][1..] == [a] && [a, a][1..] == [a];
    assert [b][1..] == [] && [a][1..] == [];
    assert Total([b], A) == Total([], A + B) == Done(|A + B|);
    assert Total([a, b], {}) == Total([b], {} + A);
    assert {} + A == A && {} + B == B && A + A == A && B + A == A + B;
    assert Total([a], B) == Done(|B + A|);
    assert Total([b, a], {}) == Total([a], {} + B);
    assert Total([a], A) == Done(|A|);
    assert Total([a, a], {}) == Total([a], {} + A);
    assert Total([a], {}) == Total([], {} + A);
  }

  /** The questions of a one-letter line. */
  lemma AnsweredLetter(c: char)
    requires LetterIndex(c).Some?
    ensures Fits([c], 26) && Answered([c]) == {LetterIndex(c).value}
  {
    var i := LetterIndex(c).value;
    assert [c][0] == c;
    assert i in Answered([c]);
  }

  /** The questions of a two-letter line. */
  lemma AnsweredPair(c: char, d: char)
    requires LetterIndex(c).Some? && LetterIndex(d).Some?
    ensures Fits([c, d], 26) && Answered([c, d]) == {LetterIndex(c).value, LetterIndex(d).value}
  {
    AnsweredLetter(c);
    AnsweredLetter(d);
    AnsweredConcat([c], [d]);
    assert [c] + [d] == [c, d];
  }

  /** The questions of a three-letter line. */
  lemma AnsweredTriple(c: char, d: char, e: char)
    requires LetterIndex(c).Some? && LetterIndex(d).Some? && LetterIndex(e).Some?
    ensures Fits([c, d, e], 26)
    ensures Answered([c, d, e]) == {LetterIndex(c).value, LetterIndex(d).value, LetterIndex(e).value}
  {
    AnsweredPair(c, d);
    AnsweredLetter(e);
    AnsweredConcat([c, d], [e]);
    assert [c, d] + [e] == [c, d, e];
  }

  /** The questions anyone in a group answered. */
  ghost function GroupAnswers(group: seq<string>): set<nat>
  {
    if group == [] then {} else Answered(group[0]) + GroupAnswers(group[1..])
  }

  /** Every line of a group names at least one question and only letters. */
  predicate Answers(group: seq<string>)
  {
    forall k :: 0 <= k < |group| ==> group[k] != "" && Fits(group[k], 26)
  }

  /** A blank line at the front closes the group of the questions `seen`. */
  lemma BlankFirst(rest: seq<string>, seen: set<nat>, m: nat)
    requires Total(rest, {}) == Done(m)
    ensures Total([""] + rest, seen) == Done(|seen| + m)
  {
    assert ([""] + rest)[1..] == rest;
  }

  /** A line of letters at the front adds its questions to those `seen`. */
  lemma LineFirst(lines: seq<string>, seen: set<nat>)
    requires lines != [] && lines[0] != "" && Fits(lines[0], 26)
    ensures Total(lines, seen) == Total(lines[1..], seen + Answered(lines[0]))
  {
  }

  /** The answers of a group are those of its first line and of the rest. */
  lemma GroupAnswersFirst(group: seq<string>, seen: set<nat>)
    requires group != []
    ensures seen + Answered(group[0]) + GroupAnswers(group[1..]) == seen + GroupAnswers(group)
  {
  }

  /** Reading the lines of a group adds the questions anyone in it
      answered to those already `seen`, whatever follows the group. */
  lemma {:induction false} GroupPrefix(group: seq<string>, after: seq<string>, seen: set<nat>)
    requires Answers(group)
    ensures Total(group + after, seen) == Total(after, seen + GroupAnswers(group))
  {
    if group == [] {
      assert group + after == after;
      assert seen + GroupAnswers(group) == seen;
    } else {
      var lines := group + after;
      assert lines[0] == group[0] && lines[1..] == group[1..] + after;
      LineFirst(lines, seen);
      GroupPrefix(group[1..], after, seen + Answered(group[0]));
      GroupAnswersFirst(group, seen);
    }
  }

  /** A group starts with no question seen. */
  lemma NothingSeen(s: set<nat>)
    ensures {} + s == s
  {
  }

  /** A group closed by a blank line adds the number of questions anyone
      in it answered to what the lines after it count. */
  lemma {:induction false} GroupTotal(group: seq<string>, rest: seq<string>, m: nat)
    requires Answers(group) && Total(rest, {}) == Done(m)
    ensures Total(group + ([""] + rest), {}) == Done(|GroupAnswers(group)| + m)
  {
    NothingSeen(GroupAnswers(group));
    GroupPrefix(group, [""] + rest, {});
    BlankFirst(rest, GroupAnswers(group), m);
  }

  /** The last group, with no blank line after it, counts the questions
      anyone in it answered. */
  lemma {:induction false} LastGroupTotal(group: seq<string>)
    requires Answers(group)
    ensures Total(group, {}) == Done(|GroupAnswers(group)|)
  {
    NothingSeen(GroupAnswers(group));
    GroupPrefix(group, [], {});
    assert group + [] == group;
  }

  /** The five example groups count 3, 3, 3, 1 and 1 questions. */
  lemma Example()
    ensures Total(["abc", "", "a", "b", "c", "", "ab", "ac", "", "a", "a", "a", "a", "", "b"], {}) == Done(11)
  {
    ExampleLines(["abc", "", "a", "b", "c", "", "ab", "ac", "", "a", "a", "a", "a", "", "b"]);
  }

  /** A suffix of a list is a group, a blank line and the rest. */
  lemma SuffixSplit(L: seq<string>, i: nat, j: nat)
    requires i <= j < |L| && L[j] == ""
    ensures L[i..] == L[i..j] + ([""] + L[j + 1..])
  {
  }

  /** A suffix of the lines that starts with a group closed by a blank
      line counts that group and what follows the blank line. */
  lemma {:induction false} SuffixTotal(L: seq<string>, i: nat, j: nat, g: seq<string>, k: nat, m: nat)
    requires i <= j < |L| && L[j] == "" && L[i..j] == g
    requires Answers(g) && |GroupAnswers(g)| == k && Total(L[j + 1..], {}) == Done(m)
    ensures Total(L[i..], {}) == Done(k + m)
  {
    SuffixSplit(L, i, j);
    GroupTotal(g, L[j + 1..], m);
  }

  /** The questions of the example's one-letter lines. */
  lemma ExampleLetters()
    ensures Answers(["a"]) && Answered("a") == {0}
    ensures Answers(["b"]) && Answered("b") == {1}
    ensures Answers(["c"]) && Answered("c") == {2}
  {
    AnsweredLetter('a');
    AnsweredLetter('b');
    AnsweredLetter('c');
    assert "a" == ['a'] && "b" == ['b'] && "c" == ['c'];
  }

  /** The first example group, `abc`. */
  lemma ExampleGroupOne()
    ensures Answers(["abc"]) && GroupAnswers(["abc"]) == {0, 1, 2} && |{0, 1, 2}| == 3
  {
    AnsweredTriple('a', 'b', 'c');
    assert "abc" == ['a', 'b', 'c'];
    assert GroupAnswers(["abc"]) == Answered("abc") + GroupAnswers([]);
  }

  /** The second example group, `a`, `b` and `c`. */
  lemma ExampleGroupTwo()
    ensures Answers(["a", "b", "c"]) && GroupAnswers(["a", "b", "c"]) == {0, 1, 2} && |{0, 1, 2}| == 3
  {
    ExampleLetters();
    var g := ["a", "b", "c"];
    assert g[1..] == ["b", "c"] && g[1..][1..] == ["c"];
    assert GroupAnswers(["c"]) == {2} by {
      assert GroupAnswers(["c"]) == Answered("c") + GroupAnswers([]);
    }
  }

  /** The third example group, `ab` and `ac`. */
  lemma ExampleGroupThree()
    ensures Answers(["ab", "ac"]) && GroupAnswers(["ab", "ac"]) == {0, 1, 2} && |{0, 1, 2}| == 3
  {
    AnsweredPair('a', 'b');
    AnsweredPair('a', 'c');
    assert "ab" == ['a', 'b'] && "ac" == ['a', 'c'];
    assert GroupAnswers(["ac"]) == {0, 2} by {
      assert GroupAnswers(["ac"]) == Answered("ac") + GroupAnswers([]);
    }
  }

  /** The fourth example group, `a` four times, and the last, `b`. */
  lemma ExampleGroupsFourFive()
    ensures Answers(["a", "a", "a", "a"]) && GroupAnswers(["a", "a", "a", "a"]) == {0} && |{0}| == 1
    ensures Answers(["b"]) && GroupAnswers(["b"]) == {1} && |{1}| == 1
  {
    ExampleLetters();
    assert GroupAnswers(["b"]) == Answered("b") + GroupAnswers([]);
    assert GroupAnswers(["a"]) == Answered("a") + GroupAnswers([]);
  }

  lemma {:induction false} ExampleLines(L: seq<string>)
    requires |L| == 15 && L[1] == "" && L[5] == "" && L[8] == "" && L[13] == ""
    requires L[..1] == ["abc"] && L[2..5] == ["a", "b", "c"] && L[6..8] == ["ab", "ac"]
    requires L[9..13] == ["a", "a", "a", "a"] && L[14..] == ["b"]
    ensures Total(L, {}) == Done(11)
  {
    ExampleGroupOne();
    ExampleGroupTwo();
    ExampleGroupThree();
    ExampleGroupsFourFive();
    LastGroupTotal(L[14..]);
    SuffixTotal(L, 9, 13, ["a", "a", "a", "a"], 1, 1);
    SuffixTotal(L, 6, 8, ["ab", "ac"], 3, 2);
    SuffixTotal(L, 2, 5, ["a", "b", "c"], 3, 5);
    SuffixTotal(L, 0, 1, ["abc"], 3, 8);
    assert L[0..] == L && L[0..1] == L[..1];
  }
}
