/**
 The texts that PostgreSQL reads as a UUID, and the one text in which it shows it: digits in either case, a hyphen
 or none after each group of four digits, and braces or none around the whole (section 8.12 of the PostgreSQL manual).
 */
module Uuid {
  import opened Wrappers
  import T = Text

  const GROUPS: nat := 8

  predicate IsHex(c: char) {
    '0' <= c <= '9' || 'a' <= c <= 'f' || 'A' <= c <= 'F'
  }

  predicate AllHex(s: string) {
    forall i :: 0 <= i < |s| ==> IsHex(s[i])
  }

  /** `n` groups of four digits. */
  predicate AreDigits(d: string, n: nat) {
    |d| == 4 * n && AllHex(d) && T.Lower(d) == d
  }

  /** Reads `n` groups of four digits, with or without a hyphen between two groups. */
  function ReadGroups(s: string, n: nat): Option<string>
    decreases |s|
  {
    if n == 0 then if s == "" then Some("") else None
    else if |s| < 4 || !AllHex(s[..4]) then None
    else
      match ReadGroups(if n > 1 && |s| > 4 && s[4] == '-' then s[5..] else s[4..], n - 1)
      case None => None
      case Some(more) => Some(T.Lower(s[..4]) + more)
  }

  function ReadDigits(s: string): Option<string> {
    if s == "" || s[0] != '{' then ReadGroups(s, GROUPS)
    else if |s| > 1 && s[|s| - 1] == '}' then ReadGroups(s[1..|s| - 1], GROUPS)
    else None
  }

  /** Shows groups of digits; the last eight in the form 8-4-4-4-12. */
  function ShowGroups(d: string, n: nat): string
    requires |d| == 4 * n
    decreases |d|
  {
    if n == 0 then "" else d[..4] + (if 3 < n <= 7 then "-" else "") + ShowGroups(d[4..], n - 1)
  }

  function Show(d: string): string
    requires |d| == 4 * GROUPS
  {
    ShowGroups(d, GROUPS)
  }

  /** The shown text of the id that a text spells, if it spells one. */
  function Read(s: string): Option<string> {
    match ReadDigits(s)
    case None => None
    case Some(d) => DigitsAreRead(s); Some(Show(d))
  }

  // ---- What is read ----

  lemma {:induction false} GroupsAreDigits(s: string, n: nat)
    requires ReadGroups(s, n).Some?
    ensures AreDigits(ReadGroups(s, n).value, n)
    decreases n
  {
    if n > 0 {
      GroupsAreDigits(if n > 1 && |s| > 4 && s[4] == '-' then s[5..] else s[4..], n - 1);
      LowerDigits(s[..4]);
    }
  }

  lemma LowerDigits(s: string)
    requires AllHex(s)
    ensures AllHex(T.Lower(s)) && T.Lower(T.Lower(s)) == T.Lower(s)
  {
  }

  lemma DigitsAreRead(s: string)
    requires ReadDigits(s).Some?
    ensures AreDigits(ReadDigits(s).value, GROUPS)
  {
    GroupsAreDigits(if s == "" || s[0] != '{' then s else s[1..|s| - 1], GROUPS);
  }

  // ---- Reading what is shown ----

  lemma {:induction false} ShownGroupsRead(d: string, n: nat)
    requires AreDigits(d, n)
    ensures ReadGroups(ShowGroups(d, n), n) == Some(d)
    ensures n > 0 ==> ShowGroups(d, n) != "" && IsHex(ShowGroups(d, n)[0])
    decreases n
  {
    if n > 0 {
      var s, rest := ShowGroups(d, n), ShowGroups(d[4..], n - 1);
      SplitDigits(d, n);
      ShownGroupsRead(d[4..], n - 1);
      assert s[..4] == d[..4];
      if 3 < n <= 7 {
        assert s[4] == '-' && s[5..] == rest;
      } else {
        assert s[4..] == rest;
        assert n > 1 ==> s[4] == rest[0];
      }
      assert d == d[..4] + d[4..];
    }
  }

  lemma SplitDigits(d: string, n: nat)
    requires n > 0 && AreDigits(d, n)
    ensures AreDigits(d[..4], 1) && AreDigits(d[4..], n - 1)
  {
    assert forall i :: 0 <= i < 4 ==> T.Lower(d)[i] == d[i];
    assert forall i :: 4 <= i < |d| ==> T.Lower(d)[i] == d[i];
    assert T.Lower(d[..4]) == d[..4];
    assert T.Lower(d[4..]) == d[4..];
  }

  lemma ReadShown(d: string)
    requires AreDigits(d, GROUPS)
    ensures Read(Show(d)) == Some(Show(d))
  {
    hide ReadGroups;
    hide ShowGroups;
    ShownGroupsRead(d, GROUPS);
  }

  /** A shown text spells itself. */
  lemma ReadIsShown(s: string)
    requires Read(s).Some?
    ensures Read(Read(s).value) == Read(s)
  {
    hide ReadGroups;
    hide ShowGroups;
    DigitsAreRead(s);
    ReadShown(ReadDigits(s).value);
  }

  // ---- Other texts for the same id ----

  lemma {:induction false} BareGroupsRead(d: string, n: nat)
    requires AreDigits(d, n)
    ensures ReadGroups(d, n) == Some(d)
    decreases n
  {
    if n > 0 {
      SplitDigits(d, n);
      BareGroupsRead(d[4..], n - 1);
      assert n > 1 ==> d[4] == d[4..][0];
      assert d == d[..4] + d[4..];
    }
  }

  /** Every shown id is also read without its hyphens and in braces. */
  lemma OtherSpellings(d: string)
    requires AreDigits(d, GROUPS)
    ensures Read(d) == Some(Show(d)) && Read("{" + Show(d) + "}") == Some(Show(d)) && d != Show(d)
  {
    hide ReadGroups;
    BareGroupsRead(d, GROUPS);
    ShownGroupsRead(d, GROUPS);
    var braced := "{" + Show(d) + "}";
    assert braced[1..|braced| - 1] == Show(d);
    ShownLength(d, GROUPS);
  }

  lemma {:induction false} ShownLength(d: string, n: nat)
    requires |d| == 4 * n
    ensures |ShowGroups(d, n)| == 4 * n + if n < 4 then 0 else if n <= 7 then n - 3 else 4
    decreases n
  {
    if n > 0 {
      ShownLength(d[4..], n - 1);
    }
  }
}
