/** String helpers behind std::string::find, std::setw and integer insertion into a stream. */
module Text {

  datatype Option<+T> = None | Some(value: T)

  function Max(a: int, b: int): int { if a < b then b else a }

  /** `pat` sits in `s` starting at index `i`. */
  predicate OccursAt(s: string, pat: string, i: nat) {
    i + |pat| <= |s| && s[i..i + |pat|] == pat
  }

  /** `pat` is a contiguous substring of `s` (the empty string is one of every string). */
  ghost predicate Occurs(s: string, pat: string) {
    exists i: nat :: OccursAt(s, pat, i)
  }

  /** Leftmost occurrence of `pat` in `s` at or after `from`; None plays the part of npos. */
  function FindFrom(s: string, pat: string, from: nat): (r: Option<nat>)
    ensures r.Some? ==> from <= r.value && OccursAt(s, pat, r.value)
    ensures r.Some? ==> forall j: nat :: from <= j < r.value ==> !OccursAt(s, pat, j)
    ensures r.None? ==> forall j: nat :: from <= j ==> !OccursAt(s, pat, j)
    decreases |s| - from
  {
    if from + |pat| > |s| then None
    else if s[from..from + |pat|] == pat then Some(from)
    else FindFrom(s, pat, from + 1)
  }

  /** std::string::find(pat): the first index where `pat` occurs, or None. */
  function Find(s: string, pat: string): (r: Option<nat>)
    ensures r.Some? <==> Occurs(s, pat)
    ensures r.Some? ==> OccursAt(s, pat, r.value)
    ensures r.Some? ==> forall j: nat :: j < r.value ==> !OccursAt(s, pat, j)
  {
    FindFrom(s, pat, 0)
  }

  /** A one-character pattern occurs exactly where that character is. */
  lemma OccursAtChar(s: string, c: char, i: nat)
    ensures OccursAt(s, [c], i) <==> i < |s| && s[i] == c
  {
    if i < |s| {
      assert s[i..i + 1] == [s[i]];
    }
  }

  /** find of a one-character pattern is the index of the first occurrence of that character. */
  lemma {:induction false} FindChar(s: string, c: char)
    ensures Find(s, [c]).None? <==> c !in s
    ensures Find(s, [c]).Some? ==>
              Find(s, [c]).value < |s| && s[Find(s, [c]).value] == c && c !in s[..Find(s, [c]).value]
  {
    var r := Find(s, [c]);
    if c in s {
      var k :| 0 <= k < |s| && s[k] == c;
      OccursAtChar(s, c, k);
    }
    if r.Some? {
      OccursAtChar(s, c, r.value);
      forall j | 0 <= j < r.value ensures s[j] != c {
        OccursAtChar(s, c, j);
      }
    }
  }

  /** find of a one-character pattern returns the index of its first occurrence. */
  lemma FindCharAt(s: string, c: char, k: nat)
    requires k < |s| && s[k] == c && forall j :: 0 <= j < k ==> s[j] != c
    ensures Find(s, [c]) == Some(k)
  {
    OccursAtChar(s, c, k);
    FindChar(s, c);
  }

  // ---------------------------------------------------------------- padding (std::setw)

  function Spaces(k: nat): (r: string)
    ensures |r| == k && forall i :: 0 <= i < k ==> r[i] == ' '
  {
    seq(k, _ => ' ')
  }

  /** `std::left << std::setw(width) << s`: space-filled on the right, never truncated. */
  function PadRight(s: string, width: nat): (r: string)
    ensures |r| == Max(|s|, width)
    ensures r[..|s|] == s
    ensures forall i :: |s| <= i < |r| ==> r[i] == ' '
  {
    if |s| < width then s + Spaces(width - |s|) else s
  }

  /** `std::right << std::setw(width) << s`: space-filled on the left, never truncated. */
  function PadLeft(s: string, width: nat): (r: string)
    ensures |r| == Max(|s|, width)
    ensures r[|r| - |s|..] == s
    ensures forall i :: 0 <= i < |r| - |s| ==> r[i] == ' '
  {
    if |s| < width then Spaces(width - |s|) + s else s
  }

  /** Drops the trailing spaces of `s`. */
  function TrimRight(s: string): (r: string)
    ensures |r| <= |s| && r == s[..|r|]
    ensures r == [] || r[|r| - 1] != ' '
    ensures forall i :: |r| <= i < |s| ==> s[i] == ' '
  {
    if s != [] && s[|s| - 1] == ' ' then TrimRight(s[..|s| - 1]) else s
  }

  /** Drops the leading spaces of `s`. */
  function TrimLeft(s: string): (r: string)
    ensures |r| <= |s| && r == s[|s| - |r|..]
    ensures r == [] || r[0] != ' '
    ensures forall i :: 0 <= i < |s| - |r| ==> s[i] == ' '
  {
    if s != [] && s[0] == ' ' then TrimLeft(s[1..]) else s
  }

  /** Right padding is undone by trimming, as long as the text itself does not end in a space. */
  lemma {:induction false} TrimRightPadRight(s: string, width: nat)
    requires s == [] || s[|s| - 1] != ' '
    ensures TrimRight(PadRight(s, width)) == s
  {
    if |s| < width {
      TrimRightSpaces(s, width - |s|);
    }
  }

  /** Trailing spaces appended to text that does not end in a space are all trimmed off. */
  lemma {:induction false} TrimRightSpaces(s: string, k: nat)
    requires s == [] || s[|s| - 1] != ' '
    ensures TrimRight(s + Spaces(k)) == s
  {
    if k == 0 {
      assert s + Spaces(0) == s;
    } else {
      var u := s + Spaces(k - 1);
      assert Spaces(k) == Spaces(k - 1) + [' '];
      assert s + Spaces(k) == u + [' '];
      assert (u + [' '])[..|u|] == u;
      TrimRightSpaces(s, k - 1);
    }
  }

  /** Left padding is undone by trimming, as long as the text itself does not start with a space. */
  lemma {:induction false} TrimLeftPadLeft(s: string, width: nat)
    requires s == [] || s[0] != ' '
    ensures TrimLeft(PadLeft(s, width)) == s
  {
    if |s| < width {
      TrimLeftSpaces(s, width - |s|);
    }
  }

  /** Leading spaces put before text that does not start with a space are all trimmed off. */
  lemma {:induction false} TrimLeftSpaces(s: string, k: nat)
    requires s == [] || s[0] != ' '
    ensures TrimLeft(Spaces(k) + s) == s
  {
    if k == 0 {
      assert Spaces(0) + s == s;
    } else {
      var u := Spaces(k - 1) + s;
      assert Spaces(k) == [' '] + Spaces(k - 1);
      assert Spaces(k) + s == [' '] + u;
      assert ([' '] + u)[1..] == u;
      TrimLeftSpaces(s, k - 1);
    }
  }

  // ---------------------------------------------------------------- decimal digits

  predicate IsDigit(c: char) { '0' <= c <= '9' }

  predicate AllDigits(s: string) { forall i :: 0 <= i < |s| ==> IsDigit(s[i]) }

  function DigitChar(d: nat): (c: char)
    requires d < 10
    ensures IsDigit(c)
  {
    ('0' as int + d) as char
  }

  function DigitValue(c: char): (d: nat)
    requires IsDigit(c)
    ensures d < 10 && DigitChar(d) == c
  {
    c as int - '0' as int
  }

  /** Decimal text of `n` as `ostream << n` writes it: digits only, no sign, no leading zero. */
  function NatToString(n: nat): (r: string)
    ensures |r| >= 1 && AllDigits(r)
    ensures r[0] == '0' <==> n == 0
    ensures n == 0 ==> r == "0"
  {
    if n < 10 then [DigitChar(n)] else NatToString(n / 10) + [DigitChar(n % 10)]
  }

  /** The number a string of decimal digits denotes. */
  function DecimalValue(s: string): nat
    requires AllDigits(s)
  {
    if s == [] then 0 else 10 * DecimalValue(s[..|s| - 1]) + DigitValue(s[|s| - 1])
  }

  /** Reading back the decimal text of `n` gives `n`. */
  lemma {:induction false} DecimalValueNatToString(n: nat)
    ensures DecimalValue(NatToString(n)) == n
  {
    var r := NatToString(n);
    if n < 10 {
      assert r[..|r| - 1] == [];
    } else {
      assert r[..|r| - 1] == NatToString(n / 10);
      DecimalValueNatToString(n / 10);
    }
  }

  function Pow10(k: nat): (p: nat)
    ensures p >= 1
  {
    if k == 0 then 1 else 10 * Pow10(k - 1)
  }

  /** `n` is written in at most `k` digits exactly when it is below 10^k. */
  lemma {:induction false} NatToStringLength(n: nat, k: nat)
    requires k >= 1
    ensures |NatToString(n)| <= k <==> n < Pow10(k)
  {
    if n >= 10 {
      if k == 1 {
        assert |NatToString(n)| == |NatToString(n / 10)| + 1;
      } else {
        NatToStringLength(n / 10, k - 1);
      }
    } else if k > 1 {
      assert Pow10(k) == 10 * Pow10(k - 1);
    }
  }
}
