/** The string operations the pages rely on, as JavaScript defines them for
    the inputs the app gives them: decimal rendering of integers (template
    literals and `toString()`), ASCII lower-casing, `endsWith`, `split` on a
    one-character separator and `join`. */
module Text {

  predicate IsDigit(c: char) {
    '0' <= c <= '9'
  }

  predicate AllDigits(s: string) {
    forall i :: 0 <= i < |s| ==> IsDigit(s[i])
  }

  function DigitChar(d: nat): (c: char)
    requires d < 10
    ensures IsDigit(c)
  {
    (48 + d) as char
  }

  function DigitValue(c: char): (d: nat)
    requires IsDigit(c)
    ensures d < 10
  {
    c as int - 48
  }

  /** Decimal rendering of a natural number, as `${n}` and `n.toString()`
      write it: non-empty and made of digits only. `NatToStringCanonical`
      adds that it has no leading zero. */
  function NatToString(n: nat): (s: string)
    ensures |s| > 0 && AllDigits(s)
    decreases n
  {
    if n < 10 then [DigitChar(n)] else NatToString(n / 10) + [DigitChar(n % 10)]
  }

  /** A rendering has no leading zero: 0 renders as "0", and every other
      number's rendering starts with a digit from 1 to 9. */
  lemma {:induction false} NatToStringCanonical(n: nat)
    ensures n == 0 ==> NatToString(n) == "0"
    ensures n > 0 ==> NatToString(n)[0] != '0'
    ensures |NatToString(n)| == 1 || NatToString(n)[0] != '0'
    decreases n
  {
    if n >= 10 {
      NatToStringCanonical(n / 10);
      assert NatToString(n)[0] == NatToString(n / 10)[0];
    }
  }

  /** Decimal rendering of an integer, with a leading minus when negative. */
  function IntToString(i: int): string {
    if i < 0 then "-" + NatToString(-i) else NatToString(i)
  }

  /** Value of a non-empty string of decimal digits. */
  function ParseNat(s: string): nat
    requires |s| > 0 && AllDigits(s)
    decreases |s|
  {
    if |s| == 1 then DigitValue(s[0])
    else 10 * ParseNat(s[..|s| - 1]) + DigitValue(s[|s| - 1])
  }

  /** Reading back a rendered number gives the number. */
  lemma {:induction false} ParseNatToString(n: nat)
    ensures ParseNat(NatToString(n)) == n
    decreases n
  {
    if n >= 10 {
      var s := NatToString(n);
      assert s[..|s| - 1] == NatToString(n / 10);
      ParseNatToString(n / 10);
    }
  }

  /** Two ids render to the same string exactly when they are equal. */
  lemma NatToStringInjective(a: nat, b: nat)
    ensures NatToString(a) == NatToString(b) <==> a == b
  {
    if NatToString(a) == NatToString(b) {
      ParseNatToString(a);
      ParseNatToString(b);
    }
  }

  function LowerChar(c: char): char {
    if 'A' <= c <= 'Z' then (c as int + 32) as char else c
  }

  /** `toLowerCase` restricted to ASCII letters: no upper-case letter is
      left, each letter keeps its position, and every other character is
      kept as it is. */
  function ToLower(s: string): (r: string)
    ensures |r| == |s|
    ensures forall i :: 0 <= i < |s| ==> !('A' <= r[i] <= 'Z')
    ensures forall i :: 0 <= i < |s| && !('A' <= s[i] <= 'Z') ==> r[i] == s[i]
    ensures forall i :: 0 <= i < |s| && 'A' <= s[i] <= 'Z' ==> r[i] as int == s[i] as int + 32
  {
    seq(|s|, i requires 0 <= i < |s| => LowerChar(s[i]))
  }

  /** Lower-casing works character by character, so it distributes over
      concatenation. */
  lemma ToLowerAppend(a: string, b: string)
    ensures ToLower(a + b) == ToLower(a) + ToLower(b)
  {
  }

  predicate EndsWith(s: string, suffix: string) {
    |suffix| <= |s| && s[|s| - |suffix|..] == suffix
  }

  function Last<T>(xs: seq<T>): T
    requires |xs| > 0
  {
    xs[|xs| - 1]
  }

  /** Position of the first occurrence of `c` in `s`. */
  function IndexOf(s: string, c: char): (i: nat)
    requires c in s
    ensures i < |s| && s[i] == c
    ensures c !in s[..i]
  {
    if s[0] == c then 0
    else
      var j := IndexOf(s[1..], c);
      assert s[..j + 1] == [s[0]] + s[1..][..j];
      j + 1
  }

  /** `s.split(sep)`: the maximal separator-free pieces between separators,
      always at least one (the empty string splits into one empty piece). */
  function Split(s: string, sep: char): (parts: seq<string>)
    ensures |parts| > 0
    ensures forall i :: 0 <= i < |parts| ==> sep !in parts[i]
    decreases |s|
  {
    if sep !in s then [s]
    else
      var i := IndexOf(s, sep);
      [s[..i]] + Split(s[i + 1..], sep)
  }

  /** `parts.join(sep)`; an empty list joins to "". The join starts with
      the first piece, and each of its characters comes from a piece or from
      the separator. */
  function Join(parts: seq<string>, sep: string): (r: string)
    ensures |parts| == 0 ==> r == ""
    ensures |parts| > 0 ==> |parts[0]| <= |r| && r[..|parts[0]|] == parts[0]
    ensures forall c :: c in r ==> c in sep || exists i :: 0 <= i < |parts| && c in parts[i]
    decreases |parts|
  {
    if |parts| == 0 then ""
    else if |parts| == 1 then parts[0]
    else
      var rest := Join(parts[1..], sep);
      assert forall c :: c in rest ==> c in sep || exists i :: 1 <= i < |parts| && c in parts[i] by {
        forall c | c in rest && c !in sep
          ensures exists i :: 1 <= i < |parts| && c in parts[i]
        {
          var k :| 0 <= k < |parts[1..]| && c in parts[1..][k];
          assert c in parts[k + 1];
        }
      }
      var r := parts[0] + sep + rest;
      assert r[..|parts[0]|] == parts[0];
      r
  }

  /** Joining the pieces of a split gives back the string. */
  lemma {:induction false} JoinSplit(s: string, sep: char)
    ensures Join(Split(s, sep), [sep]) == s
    decreases |s|
  {
    if sep in s {
      var i := IndexOf(s, sep);
      var tail := Split(s[i + 1..], sep);
      assert Split(s, sep) == [s[..i]] + tail;
      assert ([s[..i]] + tail)[1..] == tail;
      JoinSplit(s[i + 1..], sep);
      assert s == s[..i] + [sep] + s[i + 1..];
    }
  }

  /** The first separator in `p + [sep] + rest` is the one after `p` when
      `p` holds none. */
  lemma IndexOfAfterPiece(p: string, sep: char, rest: string)
    requires sep !in p
    ensures sep in p + [sep] + rest
    ensures IndexOf(p + [sep] + rest, sep) == |p|
  {
    var s := p + [sep] + rest;
    assert s[|p|] == sep;
    assert s[..|p|] == p;
  }

  /** Splitting a join of separator-free pieces gives back the pieces. */
  lemma {:induction false} SplitJoin(parts: seq<string>, sep: char)
    requires |parts| > 0
    requires forall i :: 0 <= i < |parts| ==> sep !in parts[i]
    ensures Split(Join(parts, [sep]), sep) == parts
    decreases |parts|
  {
    if |parts| > 1 {
      var rest := Join(parts[1..], [sep]);
      var s := parts[0] + [sep] + rest;
      assert Join(parts, [sep]) == s;
      IndexOfAfterPiece(parts[0], sep, rest);
      assert s[..|parts[0]|] == parts[0];
      assert s[|parts[0]| + 1..] == rest;
      assert Split(s, sep) == [parts[0]] + Split(rest, sep);
      SplitJoin(parts[1..], sep);
      assert parts == [parts[0]] + parts[1..];
    }
  }

  /** A separator-free piece followed by the separator splits off first. */
  lemma SplitAfterPiece(p: string, sep: char, r: string)
    requires sep !in p
    ensures Split(p + [sep] + r, sep) == [p] + Split(r, sep)
  {
    var s := p + [sep] + r;
    IndexOfAfterPiece(p, sep, r);
    assert s[..|p|] == p;
    assert s[|p| + 1..] == r;
  }

  /** The pieces of a join with the separator `[sep] + glue`, once split at
      `sep`: the first piece, then each later piece with `glue` in front. */
  function Glued(parts: seq<string>, glue: string): (q: seq<string>)
    requires |parts| > 0
    ensures |q| == |parts| && q[0] == parts[0]
    ensures forall j :: 1 <= j < |parts| ==> q[j] == glue + parts[j]
  {
    [parts[0]] + seq(|parts| - 1, j requires 0 <= j < |parts| - 1 => glue + parts[j + 1])
  }

  /** Joining one more piece appends the separator and that piece: with
      `Join([p], sep) == p`, this fixes the join of any pieces, whatever
      they hold. */
  lemma {:induction false} JoinSnoc(parts: seq<string>, p: string, sep: string)
    ensures |parts| == 0 ==> Join(parts + [p], sep) == p
    ensures |parts| > 0 ==> Join(parts + [p], sep) == Join(parts, sep) + sep + p
    decreases |parts|
  {
    if |parts| == 0 {
      assert parts + [p] == [p];
    } else if |parts| == 1 {
      assert (parts + [p])[1..] == [p];
    } else {
      assert (parts + [p])[1..] == parts[1..] + [p];
      JoinSnoc(parts[1..], p, sep);
    }
  }

  /** Splitting a join whose separator starts with `sep` gives back every
      piece, in order: `"a, b, c".split(",")` is `["a", " b", " c"]` when
      no piece holds a comma. */
  lemma SplitJoinGlued(parts: seq<string>, sep: char, glue: string)
    requires |parts| > 0
    requires sep !in glue
    requires forall i :: 0 <= i < |parts| ==> sep !in parts[i]
    ensures Split(Join(parts, [sep] + glue), sep) == Glued(parts, glue)
  {
    SplitLeadGluedJoin("", parts, sep, glue);
    assert "" + Join(parts, [sep] + glue) == Join(parts, [sep] + glue);
    assert Glued(parts, glue) == [parts[0]] + Glued(parts, glue)[1..];
  }

  /** The same, with a separator-free `lead` in front of the join: it lands
      on the first piece. */
  lemma {:induction false} SplitLeadGluedJoin(lead: string, parts: seq<string>, sep: char, glue: string)
    requires |parts| > 0
    requires sep !in lead && sep !in glue
    requires forall i :: 0 <= i < |parts| ==> sep !in parts[i]
    ensures Split(lead + Join(parts, [sep] + glue), sep) == [lead + parts[0]] + Glued(parts, glue)[1..]
    decreases |parts|
  {
    if |parts| == 1 {
      assert lead + Join(parts, [sep] + glue) == lead + parts[0];
      assert sep !in lead + parts[0];
    } else {
      var rest := Join(parts[1..], [sep] + glue);
      assert lead + Join(parts, [sep] + glue) == (lead + parts[0]) + [sep] + (glue + rest);
      SplitAfterPiece(lead + parts[0], sep, glue + rest);
      SplitLeadGluedJoin(glue, parts[1..], sep, glue);
      GluedTail(parts, glue);
    }
  }

  /** Past the first piece, the glued pieces are the glued second piece and
      then the tail's glued pieces past its first. */
  lemma GluedTail(parts: seq<string>, glue: string)
    requires |parts| > 1
    ensures Glued(parts, glue)[1..] == [glue + parts[1]] + Glued(parts[1..], glue)[1..]
  {
    var q := Glued(parts, glue)[1..];
    var qt := Glued(parts[1..], glue);
    var r := [glue + parts[1]] + qt[1..];
    assert |q| == |r|;
    forall j | 0 <= j < |q|
      ensures q[j] == r[j]
    {
      if j > 0 {
        assert qt[j] == glue + parts[1..][j];
      }
    }
  }

  /** The last piece of a split is the separator-free suffix that follows the
      last separator, or the whole string when there is none. */
  lemma {:induction false} LastOfSplit(s: string, sep: char)
    ensures var last := Last(Split(s, sep));
      && EndsWith(s, last)
      && sep !in last
      && (|last| < |s| ==> s[|s| - |last| - 1] == sep)
    decreases |s|
  {
    var parts := Split(s, sep);
    assert sep !in Last(parts);
    if sep in s {
      var i := IndexOf(s, sep);
      var t := s[i + 1..];
      var tail := Split(t, sep);
      assert parts == [s[..i]] + tail;
      assert Last(parts) == Last(tail) by {
        assert |parts| == |tail| + 1;
        assert parts[|parts| - 1] == tail[|tail| - 1];
      }
      LastOfSplit(t, sep);
      SuffixOfTail(s, i + 1, Last(tail));
    } else {
      assert parts == [s];
      assert s[|s| - |s|..] == s;
    }
  }

  /** A suffix of `s[k..]` is a suffix of `s`, preceded by the same character
      or, when it is all of `s[k..]`, by `s[k - 1]`. */
  lemma SuffixOfTail(s: string, k: nat, last: string)
    requires 0 < k <= |s|
    requires EndsWith(s[k..], last)
    ensures EndsWith(s, last)
    ensures |last| == |s| - k ==> s[|s| - |last| - 1] == s[k - 1]
    ensures |last| < |s| - k ==> s[|s| - |last| - 1] == s[k..][|s| - k - |last| - 1]
  {
  }
}
