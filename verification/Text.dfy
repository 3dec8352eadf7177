/**
 The string operations the modelled code leans on: ASCII case folding, trimming of blanks, and the
 ordering used wherever rows are ordered by a text column (code points, as in the "C" collation).
 */
module Text {

  function LowerChar(c: char): char {
    if 'A' <= c <= 'Z' then (c as int - 'A' as int + 'a' as int) as char else c
  }

  function Lower(s: string): (r: string)
    ensures |r| == |s|
    ensures forall i :: 0 <= i < |s| ==> r[i] == LowerChar(s[i])
  {
    seq(|s|, i requires 0 <= i < |s| => LowerChar(s[i]))
  }

  function Upper(s: string): (r: string)
    ensures |r| == |s|
  {
    seq(|s|, i requires 0 <= i < |s| =>
      if 'a' <= s[i] <= 'z' then (s[i] as int - 'a' as int + 'A' as int) as char else s[i])
  }

  function TrimLeft(s: string): (r: string)
    ensures r != "" ==> r[0] != ' '
    ensures |r| <= |s|
    decreases |s|
  {
    if s != "" && s[0] == ' ' then TrimLeft(s[1..]) else s
  }

  function TrimRight(s: string): (r: string)
    ensures r != "" ==> r[|r| - 1] != ' '
    ensures r <= s
    decreases |s|
  {
    if s != "" && s[|s| - 1] == ' ' then TrimRight(s[..|s| - 1]) else s
  }

  function Trim(s: string): string {
    TrimRight(TrimLeft(s))
  }

  // ---- Parts of texts ----

  predicate Contains(text: string, part: string) {
    exists i :: 0 <= i <= |text| && part <= text[i..]
  }

  lemma ContainsTransitive(a: string, b: string, c: string)
    requires Contains(a, b) && Contains(b, c)
    ensures Contains(a, c)
  {
    var i :| 0 <= i <= |a| && b <= a[i..];
    var j :| 0 <= j <= |b| && c <= b[j..];
    assert c <= a[i + j..];
  }

  lemma LowerContains(text: string, part: string)
    requires Contains(text, part)
    ensures Contains(Lower(text), Lower(part))
  {
    var i :| 0 <= i <= |text| && part <= text[i..];
    assert Lower(part) <= Lower(text)[i..];
  }

  /** A part of a lowered text is lowered. */
  lemma PartIsLower(text: string, part: string)
    requires Lower(text) == text && Contains(text, part)
    ensures Lower(part) == part
  {
    var i :| 0 <= i <= |text| && part <= text[i..];
    forall k | 0 <= k < |part|
      ensures LowerChar(part[k]) == part[k]
    {
      assert part[k] == text[i..][k] == text[i + k];
      assert Lower(text)[i + k] == LowerChar(text[i + k]);
    }
  }

  predicate Trimmed(s: string) {
    s == "" || (s[0] != ' ' && s[|s| - 1] != ' ')
  }

  lemma {:induction false} TrimLeftKeeps(s: string, part: string)
    requires Trimmed(part) && Contains(s, part)
    ensures Contains(TrimLeft(s), part)
    decreases |s|
  {
    if s != "" && s[0] == ' ' {
      var i :| 0 <= i <= |s| && part <= s[i..];
      if i == 0 {
        assert part <= s[1..][0..];
      } else {
        assert s[i..] == s[1..][i - 1..];
      }
      TrimLeftKeeps(s[1..], part);
    }
  }

  lemma {:induction false} TrimRightKeeps(s: string, part: string)
    requires Trimmed(part) && Contains(s, part)
    ensures Contains(TrimRight(s), part)
    decreases |s|
  {
    if s != "" && s[|s| - 1] == ' ' {
      var i :| 0 <= i <= |s| && part <= s[i..];
      var rest := s[..|s| - 1];
      if part == "" {
        assert part <= rest[0..];
      } else {
        assert part[|part| - 1] == s[i + |part| - 1];
        assert part <= rest[i..];
      }
      TrimRightKeeps(rest, part);
    }
  }

  /** Trimming a text takes no trimmed part away. */
  lemma TrimKeeps(s: string, part: string)
    requires Trimmed(part) && Contains(s, part)
    ensures Contains(Trim(s), part)
  {
    TrimLeftKeeps(s, part);
    TrimRightKeeps(TrimLeft(s), part);
  }

  lemma {:induction false} TrimLeftIsSuffix(s: string)
    ensures TrimLeft(s) == s[|s| - |TrimLeft(s)|..]
    decreases |s|
  {
    if s != "" && s[0] == ' ' {
      TrimLeftIsSuffix(s[1..]);
    }
  }

  lemma TrimIs(s: string)
    ensures Contains(s, Trim(s)) && Trimmed(Trim(s))
  {
    TrimLeftIsSuffix(s);
    assert Trim(s) <= s[|s| - |TrimLeft(s)|..];
  }

  lemma TrimmedStays(s: string)
    requires Trimmed(s)
    ensures Trim(s) == s
  {
  }

  lemma LowerKeepsTrimmed(s: string)
    ensures Trimmed(s) <==> Trimmed(Lower(s))
  {
  }

  // ---- Order ----

  /** Lexicographic order. */
  predicate Leq(a: string, b: string) {
    a == "" || (b != "" && (a[0] < b[0] || (a[0] == b[0] && Leq(a[1..], b[1..]))))
  }

  lemma {:induction false} LeqTotal(a: string, b: string)
    ensures Leq(a, b) || Leq(b, a)
  {
    if a != "" && b != "" && a[0] == b[0] {
      LeqTotal(a[1..], b[1..]);
    }
  }

  lemma {:induction false} LeqAntisymmetric(a: string, b: string)
    requires Leq(a, b) && Leq(b, a)
    ensures a == b
  {
    if a != "" && b != "" {
      LeqAntisymmetric(a[1..], b[1..]);
      assert a == [a[0]] + a[1..] && b == [b[0]] + b[1..];
    }
  }

  lemma {:induction false} LeqTransitive(a: string, b: string, c: string)
    requires Leq(a, b) && Leq(b, c)
    ensures Leq(a, c)
  {
    if a != "" && a[0] == b[0] == c[0] {
      LeqTransitive(a[1..], b[1..], c[1..]);
    }
  }

  // ---- The least of some texts ----

  lemma {:induction false} LeastExists(texts: set<string>) returns (least: string)
    requires texts != {}
    ensures least in texts && forall t :: t in texts ==> Leq(least, t)
    decreases texts
  {
    var x :| x in texts;
    LeqTotal(x, x);
    if texts == {x} {
      least := x;
    } else {
      assert texts == (texts - {x}) + {x};
      var y := LeastExists(texts - {x});
      LeqTotal(x, y);
      least := if Leq(x, y) then x else y;
      forall t | t in texts
        ensures Leq(least, t)
      {
        if t != x && least == x {
          LeqTransitive(x, y, t);
        }
      }
    }
  }

  /** MIN over a set of texts. */
  ghost function Least(texts: set<string>): (least: string)
    requires texts != {}
    ensures least in texts && forall t :: t in texts ==> Leq(least, t)
  {
    assert exists least :: least in texts && forall t :: t in texts ==> Leq(least, t) by {
      var least := LeastExists(texts);
    }
    var least :| least in texts && forall t :: t in texts ==> Leq(least, t);
    least
  }

  lemma LeastIs(texts: set<string>, least: string)
    requires least in texts && forall t :: t in texts ==> Leq(least, t)
    ensures Least(texts) == least
  {
    LeqAntisymmetric(least, Least(texts));
  }
}
