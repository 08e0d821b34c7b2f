/** Password philosophy (day2/src/main.rs): each line is a policy (two
    numbers and a letter) and a password; the old policy bounds how often
    the letter occurs, the new one asks that exactly one of two 1-based
    positions holds it. */
module PasswordPhilosophy {
  import opened Outcomes
  import opened Counting

  /** The `u16` fields of the entry. */
  type U16 = x: int | 0 <= x < 0x1_0000

  /** A parsed line `min-max character: password`. */
  datatype PasswordEntry = PasswordEntry(min: U16, max: U16, character: char, password: string)

  /** The loop's count is the multiplicity of the letter in the password
      taken as a multiset. */
  lemma {:induction false} OccurrencesIsMultiplicity(s: string, c: char)
    ensures Occurrences(s, c) == multiset(s)[c]
  {
    if s != [] {
      OccurrencesIsMultiplicity(s[..|s| - 1], c);
      assert s == s[..|s| - 1] + [s[|s| - 1]];
    }
  }

  /** `check`: count the occurrences of the letter in a loop and compare
      the count with both bounds. */
  method Check(e: PasswordEntry) returns (ok: bool)
    ensures ok <==> e.min <= multiset(e.password)[e.character] <= e.max
  {
    var count := 0;
    for i := 0 to |e.password|
      invariant count == Occurrences(e.password[..i], e.character)
    {
      assert e.password[..i + 1][..i] == e.password[..i];
      if e.password[i] == e.character {
        count := count + 1;
      }
    }
    assert e.password[..|e.password|] == e.password;
    OccurrencesIsMultiplicity(e.password, e.character);
    ok := count >= e.min && count <= e.max;
  }

  /** `check_new`: `min - 1` underflows (a panic) when `min` is 0, and
      `nth(..).unwrap()` panics when a position is past the end of the
      password; otherwise the two position tests are combined by
      exclusive or. */
  function CheckNew(e: PasswordEntry): (r: Outcome<bool>)
    ensures r.Panic? <==> e.min == 0 || e.max == 0 || e.min > |e.password| || e.max > |e.password|
  {
    if e.min == 0 || e.min > |e.password| then Panic
    else if e.max == 0 || e.max > |e.password| then Panic
    else Done((e.password[e.min - 1] == e.character) != (e.password[e.max - 1] == e.character))
  }

  /** The new policy holds exactly when the letter occurs once among the
      two positions looked at; in particular equal positions never pass. */
  lemma CheckNewMeaning(e: PasswordEntry)
    requires 1 <= e.min <= |e.password| && 1 <= e.max <= |e.password|
    ensures CheckNew(e).Done?
    ensures CheckNew(e).value <==> Occurrences([e.password[e.min - 1], e.password[e.max - 1]], e.character) == 1
    ensures e.min == e.max ==> !CheckNew(e).value
  {
    var pair := [e.password[e.min - 1], e.password[e.max - 1]];
    assert pair[..1] == [e.password[e.min - 1]];
    assert pair[..1][..0] == [];
  }

  /** The number of entries whose old policy holds. */
  function CountOld(entries: seq<PasswordEntry>): (n: nat)
    ensures n <= |entries|
  {
    if entries == [] then 0
    else
      var e := entries[|entries| - 1];
      CountOld(entries[..|entries| - 1]) +
      (if e.min <= Occurrences(e.password, e.character) <= e.max then 1 else 0)
  }

  /** The number of entries whose new policy holds; a panic on any entry
      stops the program. */
  function CountNew(entries: seq<PasswordEntry>): (r: Outcome<nat>)
    ensures r.Panic? <==> exists k :: 0 <= k < |entries| && CheckNew(entries[k]).Panic?
    ensures r.Done? ==> r.value <= |entries|
  {
    if entries == [] then Done(0)
    else
      var front := entries[..|entries| - 1];
      var e := entries[|entries| - 1];
      assert forall k :: 0 <= k < |front| ==> front[k] == entries[k];
      match CountNew(front)
      case Panic => Panic
      case Done(n) =>
        match CheckNew(e)
        case Panic => Panic
        case Done(b) => Done(n + (if b then 1 else 0))
  }

  /** The loop of `main` over the parsed lines, counting the entries that
      pass each policy. */
  method CountValid(entries: seq<PasswordEntry>) returns (r: Outcome<(nat, nat)>)
    ensures r.Panic? <==> CountNew(entries).Panic?
    ensures r.Done? ==> r.value == (CountOld(entries), CountNew(entries).value)
  {
    var count, countNew := 0, 0;
    for i := 0 to |entries|
      invariant count == CountOld(entries[..i])
      invariant CountNew(entries[..i]) == Done(countNew)
    {
      assert entries[..i + 1][..i] == entries[..i];
      var ok := Check(entries[i]);
      OccurrencesIsMultiplicity(entries[i].password, entries[i].character);
      if ok {
        count := count + 1;
      }
      var okNew := CheckNew(entries[i]);
      if okNew.Panic? {
        assert CountNew(entries[..i + 1]).Panic?;
        PanicPersists(entries, i + 1);
        return Panic;
      }
      if okNew.value {
        countNew := countNew + 1;
      }
    }
    assert entries[..|entries|] == entries;
    r := Done((count, countNew));
  }

  /** Once a prefix of the list panics, the whole list does. */
  lemma PanicPersists(entries: seq<PasswordEntry>, i: nat)
    requires i <= |entries| && CountNew(entries[..i]).Panic?
    ensures CountNew(entries).Panic?
  {
    var k :| 0 <= k < i && CheckNew(entries[..i][k]).Panic?;
    assert entries[k] == entries[..i][k];
  }

  /** A line the pattern does not match still parses, to the values the
      fields start from: both positions 0, the letter `'0'` and the
      password `"0"`. */
  const UnmatchedEntry := PasswordEntry(0, 0, '0', "0")

  /** The entry of an unmatched line fails the old policy, and a run that
      reaches it panics at `min - 1` in `check_new`. */
  lemma UnmatchedLinePanics(entries: seq<PasswordEntry>)
    requires UnmatchedEntry in entries
    ensures !(UnmatchedEntry.min <= Occurrences(UnmatchedEntry.password, UnmatchedEntry.character) <= UnmatchedEntry.max)
    ensures CountNew(entries).Panic?
  {
    var k :| 0 <= k < |entries| && entries[k] == UnmatchedEntry;
    assert CheckNew(entries[k]).Panic?;
    OccurrencesUniform("0", '0');
  }

  /** The three example lines: the first and third pass the old policy,
      the second fails it. */
  lemma ExampleOld()
    ensures CountOld([PasswordEntry(1, 3, 'a', "abcde"), PasswordEntry(1, 3, 'b', "cdefg"),
                      PasswordEntry(2, 9, 'c', "ccccccccc")]) == 2
  {
    var e1 := PasswordEntry(1, 3, 'a', "abcde");
    var e2 := PasswordEntry(1, 3, 'b', "cdefg");
    var e3 := PasswordEntry(2, 9, 'c', "ccccccccc");
    assert Occurrences("abcde", 'a') == 1 by {
      OccurrencesConcat("a", "bcde", 'a');
      OccurrencesUniform("a", 'a');
      OccurrencesUniform("bcde", 'a');
      assert "a" + "bcde" == "abcde";
    }
    assert Occurrences("cdefg", 'b') == 0 by {
      OccurrencesUniform("cdefg", 'b');
    }
    assert Occurrences("ccccccccc", 'c') == 9 by {
      OccurrencesUniform("ccccccccc", 'c');
    }
    assert [e1, e2, e3][..2] == [e1, e2];
    assert [e1, e2][..1] == [e1];
    assert [e1][..0] == [];
  }

  /** Under the new policy only the first example passes: `cdefg` has no
      `b` at all and `ccccccccc` has `c` at both positions. */
  lemma ExampleNew()
    ensures CountNew([PasswordEntry(1, 3, 'a', "abcde"), PasswordEntry(1, 3, 'b', "cdefg"),
                      PasswordEntry(2, 9, 'c', "ccccccccc")]) == Done(1)
  {
    var e1 := PasswordEntry(1, 3, 'a', "abcde");
    var e2 := PasswordEntry(1, 3, 'b', "cdefg");
    var e3 := PasswordEntry(2, 9, 'c', "ccccccccc");
    assert CheckNew(e1) == Done(true);
    assert CheckNew(e2) == Done(false);
    assert CheckNew(e3) == Done(false);
    assert [e1, e2, e3][..2] == [e1, e2];
    assert [e1, e2][..1] == [e1];
    assert [e1][..0] == [];
  }
}
