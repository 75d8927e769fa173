/**
 * The JavaScript string operations the library relies on, over `string` (= seq<char>):
 * `split` with a non-empty separator, the matching join, `trimLeft`, `slice(0, 1)` and the
 * decimal rendering of an integer in a template literal.
 */
module Text {
  import opened Wrappers

  /** `pat` occurs in `s` starting at index `j`. */
  predicate IsAt(s: string, pat: string, j: int) {
    0 <= j && j + |pat| <= |s| && s[j..j + |pat|] == pat
  }

  predicate Contains(s: string, pat: string) {
    exists j :: 0 <= j <= |s| && IsAt(s, pat, j)
  }

  predicate EndsWith(s: string, suffix: string) {
    |suffix| <= |s| && s[|s| - |suffix|..] == suffix
  }

  /** The first occurrence of `pat` in `s` at or after `i` (JavaScript `indexOf(pat, i)`). */
  function FindFrom(s: string, pat: string, i: nat): (r: Option<nat>)
    requires i <= |s|
    ensures r.Some? ==> i <= r.value && IsAt(s, pat, r.value)
    ensures r.Some? ==> forall k :: i <= k < r.value ==> !IsAt(s, pat, k)
    ensures r.None? ==> forall k :: i <= k ==> !IsAt(s, pat, k)
    decreases |s| - i
  {
    if i + |pat| > |s| then None
    else if s[i..i + |pat|] == pat then Some(i)
    else FindFrom(s, pat, i + 1)
  }

  /**
   * JavaScript `s.split(sep)` for a non-empty separator: the pieces between the
   * leftmost non-overlapping occurrences of `sep`. Joining the pieces again gives `s`
   * back, and no piece contains the separator.
   */
  function Split(s: string, sep: string): (r: seq<string>)
    requires sep != []
    ensures |r| >= 1
    ensures Join(r, sep) == s
    ensures forall i :: 0 <= i < |r| ==> !Contains(r[i], sep)
    decreases |s|
  {
    match FindFrom(s, sep, 0)
    case None => [s]
    case Some(j) =>
      var rest := Split(s[j + |sep|..], sep);
      assert s == s[..j] + sep + s[j + |sep|..] by {
        assert s[j..j + |sep|] == sep;
        assert s == s[..j] + s[j..j + |sep|] + s[j + |sep|..];
      }
      PieceBeforeFirstIsClean(s, sep, j);
      [s[..j]] + rest
  }

  /** JavaScript `parts.join(sep)`. */
  function Join(parts: seq<string>, sep: string): string {
    if |parts| == 0 then ""
    else if |parts| == 1 then parts[0]
    else parts[0] + sep + Join(parts[1..], sep)
  }

  /** `split` cuts at the leftmost occurrence: the first piece ends where `FindFrom` first finds `sep`. */
  lemma SplitLeftmost(s: string, sep: string)
    requires sep != []
    ensures FindFrom(s, sep, 0).None? ==> Split(s, sep) == [s]
    ensures FindFrom(s, sep, 0).Some? ==>
      var j := FindFrom(s, sep, 0).value;
      Split(s, sep) == [s[..j]] + Split(s[j + |sep|..], sep)
  {
  }

  /** The piece before the first occurrence of `sep` does not contain `sep`. */
  lemma PieceBeforeFirstIsClean(s: string, sep: string, j: nat)
    requires sep != [] && j <= |s|
    requires forall k :: 0 <= k < j ==> !IsAt(s, sep, k)
    ensures !Contains(s[..j], sep)
  {
    forall k | IsAt(s[..j], sep, k) ensures false {
      assert s[..j][k..k + |sep|] == s[k..k + |sep|];
      assert IsAt(s, sep, k);
    }
  }

  /** An occurrence that lies inside the prefix `a` of `a + b` is an occurrence in `a`. */
  lemma IsAtInPrefix(a: string, b: string, pat: string, k: int)
    requires 0 <= k && k + |pat| <= |a|
    ensures IsAt(a + b, pat, k) == IsAt(a, pat, k)
  {
    assert (a + b)[k..k + |pat|] == a[k..k + |pat|];
  }

  /** An occurrence that lies inside the suffix `b` of `a + b`. */
  lemma IsAtInSuffix(a: string, b: string, pat: string, k: int)
    requires |a| <= k
    ensures IsAt(a + b, pat, k) == IsAt(b, pat, k - |a|)
  {
    if k + |pat| <= |a| + |b| {
      assert (a + b)[k..k + |pat|] == b[k - |a|..k - |a| + |pat|];
    }
  }

  /**
   * `p` followed by `sep`: the first occurrence of `sep` in `p + sep` is the appended one.
   * This is what it takes for `split` to cut exactly after `p`.
   */
  predicate SepFirstAfter(p: string, sep: string) {
    forall k :: 0 <= k < |p| ==> !IsAt(p + sep, sep, k)
  }

  /** The first occurrence of `sep` in `p + sep + q` is at `|p|`, so `split` cuts there. */
  lemma {:induction false} SplitAfter(p: string, sep: string, q: string)
    requires sep != []
    requires SepFirstAfter(p, sep)
    ensures Split(p + sep + q, sep) == [p] + Split(q, sep)
  {
    var s := p + sep + q;
    assert s == (p + sep) + q;
    forall k | 0 <= k < |p| ensures !IsAt(s, sep, k) {
      IsAtInPrefix(p + sep, q, sep, k);
    }
    assert s[|p|..|p| + |sep|] == sep;
    assert IsAt(s, sep, |p|);
    assert FindFrom(s, sep, 0) == Some(|p|);
    assert s[..|p|] == p;
    assert s[|p| + |sep|..] == q;
  }

  /** A string free of `sep` is split into itself alone. */
  lemma SplitClean(q: string, sep: string)
    requires sep != []
    requires !Contains(q, sep)
    ensures Split(q, sep) == [q]
  {
    assert FindFrom(q, sep, 0).None?;
  }

  /** `split` undoes `join` when every piece but the last is cut cleanly and the last one is free of the separator. */
  lemma {:induction false} SplitJoin(parts: seq<string>, sep: string)
    requires sep != [] && |parts| >= 1
    requires forall i :: 0 <= i < |parts| - 1 ==> SepFirstAfter(parts[i], sep)
    requires !Contains(parts[|parts| - 1], sep)
    ensures Split(Join(parts, sep), sep) == parts
  {
    if |parts| == 1 {
      SplitClean(parts[0], sep);
    } else {
      SplitJoin(parts[1..], sep);
      SplitAfter(parts[0], sep, Join(parts[1..], sep));
      assert [parts[0]] + parts[1..] == parts;
    }
  }

  /** A single-character separator is cut cleanly after any piece that does not contain it. */
  lemma CharSepFirstAfter(p: string, c: char)
    requires c !in p
    ensures SepFirstAfter(p, [c]) && !Contains(p, [c])
  {
    forall k | 0 <= k < |p| ensures !IsAt(p + [c], [c], k) && !IsAt(p, [c], k) {
      assert (p + [c])[k] == p[k] && p[k] in p;
      assert (p + [c])[k..k + 1] == [p[k]];
      assert p[k..k + 1] == [p[k]];
    }
  }

  /** `split` on a single character undoes `join` when no piece contains that character. */
  lemma SplitJoinChar(parts: seq<string>, c: char)
    requires |parts| >= 1
    requires forall i :: 0 <= i < |parts| ==> c !in parts[i]
    ensures Split(Join(parts, [c]), [c]) == parts
  {
    forall i | 0 <= i < |parts| ensures SepFirstAfter(parts[i], [c]) && !Contains(parts[i], [c]) {
      CharSepFirstAfter(parts[i], c);
    }
    SplitJoin(parts, [c]);
  }

  /** An occurrence of a pattern free of `c` in `a + [c] + b` lies inside `a` or inside `b`. */
  lemma NoMatchAcrossBreak(a: string, c: char, b: string, pat: string)
    requires c !in pat
    requires !Contains(a, pat) && !Contains(b, pat)
    ensures !Contains(a + [c] + b, pat)
  {
    var s := a + [c] + b;
    forall k | 0 <= k <= |s| ensures !IsAt(s, pat, k) {
      if k + |pat| <= |a| {
        assert s == a + ([c] + b);
        IsAtInPrefix(a, [c] + b, pat, k);
      } else if k >= |a| + 1 {
        IsAtInSuffix(a + [c], b, pat, k);
      } else if k + |pat| <= |s| {
        assert s[k..k + |pat|][|a| - k] == c;
        assert pat[|a| - k] in pat;
      }
    }
  }

  /** Joining with a character that the pattern lacks creates no new occurrence. */
  lemma {:induction false} NoMatchInJoin(parts: seq<string>, c: char, pat: string)
    requires pat != [] && c !in pat
    requires forall i :: 0 <= i < |parts| ==> !Contains(parts[i], pat)
    ensures !Contains(Join(parts, [c]), pat)
  {
    if |parts| == 0 {
      assert forall k :: !IsAt("", pat, k);
    } else if |parts| > 1 {
      NoMatchInJoin(parts[1..], c, pat);
      NoMatchAcrossBreak(parts[0], c, Join(parts[1..], [c]), pat);
    }
  }

  /** Joining one more piece onto the end. */
  lemma {:induction false} JoinSnoc(parts: seq<string>, sep: string, x: string)
    requires |parts| >= 1
    ensures Join(parts + [x], sep) == Join(parts, sep) + sep + x
  {
    if |parts| == 1 {
      assert (parts + [x])[1..] == [x];
    } else {
      assert (parts + [x])[1..] == parts[1..] + [x];
      JoinSnoc(parts[1..], sep, x);
    }
  }

  /** Dropping a last empty piece leaves the join, or the join without its final separator. */
  lemma DropEmptyLast(parts: seq<string>, sep: string)
    requires |parts| >= 1 && parts[|parts| - 1] == ""
    ensures var init := parts[..|parts| - 1];
      Join(init, sep) == Join(parts, sep) || Join(init, sep) + sep == Join(parts, sep)
  {
    var init := parts[..|parts| - 1];
    if init != [] {
      assert parts == init + [""];
      JoinSnoc(init, sep, "");
    }
  }

  /** A string starts with its first part and ends with its last. */
  lemma ConcatEnds(p: string, s: string)
    ensures (p + s)[..|p|] == p && EndsWith(p + s, s)
  {
  }

  lemma EndsWithTrans(s: string, t: string, u: string)
    requires EndsWith(s, t) && EndsWith(t, u)
    ensures EndsWith(s, u)
  {
    assert s[|s| - |u|..] == t[|t| - |u|..];
  }

  /** A suffix free of `c` of `a + [c] + b` is a suffix of `b`. */
  lemma EndsWithAfterBreak(a: string, c: char, b: string, suffix: string)
    requires c !in suffix
    ensures EndsWith(a + [c] + b, suffix) ==> EndsWith(b, suffix)
  {
    var s := a + [c] + b;
    if |b| < |suffix| <= |s| {
      assert s[|s| - |suffix|..][|suffix| - |b| - 1] == c;
      assert suffix[|suffix| - |b| - 1] in suffix;
    } else if |suffix| <= |b| {
      assert s[|s| - |suffix|..] == b[|b| - |suffix|..];
    }
  }

  /** Concatenation regroups. */
  lemma AppendAssoc<T>(a: seq<T>, b: seq<T>, c: seq<T>)
    ensures a + b + c == a + (b + c)
  {
  }

  /**
   * A separator whose only self-overlap is its first character reappearing as its last
   * (as in `@end@` and `@begin@`) is cut cleanly after any piece that does not contain it
   * and does not end with all of it but the last character.
   */
  lemma SepFirstAfterBorder(p: string, sep: string)
    requires |sep| >= 2
    requires forall o :: 1 <= o < |sep| - 1 ==> sep[o] != sep[0]
    requires !Contains(p, sep) && !EndsWith(p, sep[..|sep| - 1])
    ensures SepFirstAfter(p, sep)
  {
    var s := p + sep;
    forall k | 0 <= k < |p| ensures !IsAt(s, sep, k) {
      if k + |sep| <= |p| {
        IsAtInPrefix(p, sep, sep, k);
      } else if k + |sep| <= |s| {
        var o := |p| - k;
        var w := s[k..k + |sep|];
        assert w[o] == s[|p|] == sep[0];
        if o < |sep| - 1 {
          assert w[o] != sep[o];
        } else {
          var tail := p[k..];
          assert |tail| == |sep| - 1;
          assert w[..|sep| - 1] == tail by {
            forall j | 0 <= j < |sep| - 1 ensures w[j] == tail[j] {
              assert w[j] == s[k + j];
            }
          }
          assert p[|p| - (|sep| - 1)..] == tail;
          assert w[..|sep| - 1] != sep[..|sep| - 1];
        }
      }
    }
  }

  /** A character that is neither the separator nor in any piece is not in the join. */
  lemma {:induction false} CharNotInJoin(parts: seq<string>, c: char, x: char)
    requires x != c
    requires forall i :: 0 <= i < |parts| ==> x !in parts[i]
    ensures x !in Join(parts, [c])
  {
    if |parts| > 1 {
      CharNotInJoin(parts[1..], c, x);
    }
  }

  /** The first character of a join with a non-empty first piece is that piece's first character. */
  lemma JoinHead(parts: seq<string>, sep: string)
    requires |parts| >= 1 && parts[0] != []
    ensures Join(parts, sep) != [] && Join(parts, sep)[0] == parts[0][0]
  {
  }

  // ---------------------------------------------------------------------------
  // trimLeft, restricted to ASCII white space

  predicate IsSpace(c: char) {
    c == ' ' || c == '\t' || c == '\n' || c == '\r' || c == '\U{000B}' || c == '\U{000C}'
  }

  /** JavaScript `s.trimLeft()`: the suffix of `s` left after dropping its leading white space. */
  function TrimLeft(s: string): (r: string)
    ensures |r| <= |s| && r == s[|s| - |r|..]
    ensures forall i :: 0 <= i < |s| - |r| ==> IsSpace(s[i])
    ensures r == [] || !IsSpace(r[0])
  {
    if s != [] && IsSpace(s[0]) then
      var r := TrimLeft(s[1..]);
      assert forall i :: 1 <= i < |s| - |r| ==> s[i] == s[1..][i - 1];
      r
    else s
  }

  /** `trimLeft` removes a white-space prefix up to the first character that is not white space. */
  lemma {:induction false} TrimLeftLead(lead: string, rest: string)
    requires forall i :: 0 <= i < |lead| ==> IsSpace(lead[i])
    requires rest == [] || !IsSpace(rest[0])
    ensures TrimLeft(lead + rest) == rest
  {
    if lead != [] {
      assert (lead + rest)[1..] == lead[1..] + rest;
      TrimLeftLead(lead[1..], rest);
    } else {
      assert lead + rest == rest;
    }
  }

  /** JavaScript `s.slice(0, 1) === "R"`: the first character is `c`. */
  predicate StartsWithChar(s: string, c: char) {
    |s| >= 1 && s[0] == c
  }

  // ---------------------------------------------------------------------------
  // Integers in template literals

  function DigitChar(d: nat): (c: char)
    requires d < 10
    ensures '0' <= c <= '9'
  {
    ['0', '1', '2', '3', '4', '5', '6', '7', '8', '9'][d]
  }

  /** Every character of `s` is a decimal digit. */
  predicate IsDigits(s: string) {
    forall i :: 0 <= i < |s| ==> '0' <= s[i] <= '9'
  }

  /** The integer a string of decimal digits denotes (an independent reading of the output). */
  function DigitsValue(s: string): int
    requires IsDigits(s)
  {
    if s == [] then 0 else 10 * DigitsValue(s[..|s| - 1]) + (s[|s| - 1] as int - '0' as int)
  }

  /**
   * `s` is the canonical decimal text of `n`: a non-empty string of decimal digits
   * whose value is `n`, with no leading zero unless it is the single digit `0`.
   */
  predicate Denotes(s: string, n: nat) {
    |s| >= 1 && IsDigits(s) && DigitsValue(s) == n && (|s| == 1 || s[0] != '0')
  }

  /** The decimal rendering of a natural number: the canonical digits that denote `n`. */
  function NatToString(n: nat): (r: string)
    ensures Denotes(r, n)
  {
    if n < 10 then
      var r := [DigitChar(n)];
      assert r[..0] == [];
      r
    else
      var p := NatToString(n / 10);
      var r := p + [DigitChar(n % 10)];
      assert r[..|r| - 1] == p;
      assert p[..0] == [];
      assert r[0] == p[0];
      r
  }

  /** Digits without a leading zero, more than one or a single non-zero one, denote at least 1. */
  lemma {:induction false} LeadingDigitPositive(s: string)
    requires |s| >= 1 && IsDigits(s) && s[0] != '0'
    ensures DigitsValue(s) >= 1
  {
    if |s| == 1 {
      assert s[..0] == [];
    } else {
      var p := s[..|s| - 1];
      assert p[0] == s[0];
      LeadingDigitPositive(p);
    }
  }

  /** `DigitChar` is the inverse of reading a digit. */
  lemma DigitCharOf(c: char)
    requires '0' <= c <= '9'
    ensures DigitChar(c as int - '0' as int) == c
  {
  }

  /** The last digit and the rest of a number written as `10 * v + d` with `d` a digit. */
  lemma DivModDigit(v: nat, d: nat)
    requires d < 10
    ensures (10 * v + d) / 10 == v && (10 * v + d) % 10 == d
  {
  }

  /** The canonical decimal text of a number is unique: it is the one `NatToString` renders. */
  lemma {:induction false} DenotesUnique(s: string, n: nat)
    requires Denotes(s, n)
    ensures s == NatToString(n)
  {
    var d := s[|s| - 1] as int - '0' as int;
    DigitCharOf(s[|s| - 1]);
    if |s| == 1 {
      assert s[..0] == [];
      assert DigitsValue(s) == 10 * DigitsValue(s[..0]) + d;
      assert s == [DigitChar(d)];
    } else {
      var p := s[..|s| - 1];
      var v := DigitsValue(p);
      assert p[0] == s[0];
      LeadingDigitPositive(p);
      assert Denotes(p, v);
      DenotesUnique(p, v);
      assert n == 10 * v + d;
      DivModDigit(v, d);
      assert s == p + [DigitChar(d)];
    }
  }

  /**
   * `${n}` for an integer `n`: a minus sign for negative numbers, then the digits
   * of its magnitude.
   */
  function IntToString(n: int): (r: string)
    ensures n < 0 <==> StartsWithChar(r, '-')
    ensures n >= 0 ==> Denotes(r, n)
    ensures n < 0 ==> |r| >= 2 && Denotes(r[1..], -n)
  {
    if n < 0 then
      var r := "-" + NatToString(-n);
      assert r[1..] == NatToString(-n);
      r
    else NatToString(n)
  }
}
