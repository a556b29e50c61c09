/**
 Display formatting of amounts and rates in Brazilian convention.

 The numeric rendering itself (two decimals, thousands grouping) is done by
 the host language's float formatting and is taken here as an input string;
 what is modelled is the post-processing: the three single-character
 replacements that swap the thousands and decimal separators, the "R$ "
 prefix and the "%" suffix.
 */
module Format {

  /** Replaces every occurrence of the character `from` in `s` by `to`. */
  function Replace(s: string, from: char, to: char): (r: string)
    ensures |r| == |s|
    ensures forall i :: 0 <= i < |s| ==> r[i] == (if s[i] == from then to else s[i])
  {
    if s == [] then [] else [if s[0] == from then to else s[0]] + Replace(s[1..], from, to)
  }

  /**
   Reference meaning of the separator swap on one character: ',' and '.'
   trade places, the placeholder 'X' ends up as '.', and every other
   character is kept.
   */
  function SwapChar(c: char): char {
    if c == ',' then '.'
    else if c == '.' then ','
    else if c == 'X' then '.'
    else c
  }

  /**
   The three chained replacements: ',' to 'X', then '.' to ',', then 'X'
   to '.'.
   */
  function SwapSeparators(s: string): (r: string)
    ensures |r| == |s|
    ensures forall i :: 0 <= i < |s| ==> r[i] == SwapChar(s[i])
    ensures 'X' !in r
  {
    Replace(Replace(Replace(s, ',', 'X'), '.', ','), 'X', '.')
  }

  /**
   On a string without 'X', the swap turns every ',' into '.', every '.'
   into ',' and keeps every other character.
   */
  lemma SwapSeparatorsSemXis(s: string, i: nat)
    requires 'X' !in s
    requires i < |s|
    ensures s[i] == ',' <==> SwapSeparators(s)[i] == '.'
    ensures s[i] == '.' <==> SwapSeparators(s)[i] == ','
    ensures s[i] != ',' && s[i] != '.' ==> SwapSeparators(s)[i] == s[i]
  {
  }

  /** On a string without 'X', swapping twice gives back the original. */
  lemma SwapSeparatorsInvolutive(s: string)
    requires 'X' !in s
    ensures SwapSeparators(SwapSeparators(s)) == s
  {
  }

  /** `t` is `s` with every character mapped by `SwapChar`. */
  predicate Swapped(s: string, t: string) {
    |t| == |s| && forall i :: 0 <= i < |s| ==> t[i] == SwapChar(s[i])
  }

  /** Corresponding slices of a swapped pair are a swapped pair. */
  lemma SwappedSlice(s: string, t: string, lo: nat, hi: nat)
    requires Swapped(s, t)
    requires lo <= hi <= |s|
    ensures Swapped(s[lo..hi], t[lo..hi])
  {
  }

  /** The currency rendering: prefix "R$ " and swap the separators. */
  function FormatBrl(numeral: string): (r: string)
    ensures r == "R$ " + SwapSeparators(numeral)
  {
    SwapSeparators("R$ " + numeral)
  }

  /** The percentage rendering: append "%". */
  function FormatPct(numeral: string): (r: string)
    ensures |r| == |numeral| + 1 && r[|r| - 1] == '%' && r[..|numeral|] == numeral
  {
    numeral + "%"
  }

  predicate IsDigit(c: char) {
    '0' <= c <= '9'
  }

  predicate AllDigits(s: string) {
    forall i :: 0 <= i < |s| ==> IsDigit(s[i])
  }

  /**
   An integer part written with a thousands separator `sep`: one to three
   leading digits, then groups of `sep` followed by three digits.
   */
  predicate Grouped(s: string, sep: char)
    decreases |s|
  {
    if |s| <= 3 then 1 <= |s| && AllDigits(s)
    else |s| >= 5 && s[|s| - 4] == sep && AllDigits(s[|s| - 3..]) && Grouped(s[..|s| - 4], sep)
  }

  /**
   An unsigned fixed-point numeral with two decimals: a grouped integer part,
   the decimal separator `dec` and two digits.
   */
  predicate Unsigned(s: string, sep: char, dec: char) {
    && |s| >= 4
    && s[|s| - 3] == dec
    && AllDigits(s[|s| - 2..])
    && Grouped(s[..|s| - 3], sep)
  }

  /** A fixed-point numeral with two decimals and an optional leading '-'. */
  predicate Numeral(s: string, sep: char, dec: char) {
    if |s| > 0 && s[0] == '-' then Unsigned(s[1..], sep, dec) else Unsigned(s, sep, dec)
  }

  /** A run of digits contains no 'X'. */
  lemma DigitsHaveNoX(s: string)
    requires AllDigits(s)
    ensures 'X' !in s
  {
  }

  /** The swap leaves a run of digits unchanged. */
  lemma SwapDigits(s: string, t: string)
    requires AllDigits(s) && Swapped(s, t)
    ensures t == s
  {
  }

  /** A grouped integer part never contains the placeholder 'X'. */
  lemma {:induction false} GroupedHasNoX(s: string, sep: char)
    requires Grouped(s, sep) && sep != 'X'
    ensures 'X' !in s
  {
    if |s| > 3 {
      var n := |s|;
      var head, tail := s[..n - 4], s[n - 3..];
      GroupedHasNoX(head, sep);
      DigitsHaveNoX(tail);
      assert s == head + [sep] + tail;
    } else {
      DigitsHaveNoX(s);
    }
  }

  /** An unsigned numeral in the '1,234.56' convention never contains 'X'. */
  lemma UnsignedHasNoX(s: string)
    requires Unsigned(s, ',', '.')
    ensures 'X' !in s
  {
    var n := |s|;
    var whole, cents := s[..n - 3], s[n - 2..];
    GroupedHasNoX(whole, ',');
    DigitsHaveNoX(cents);
    assert s == whole + ['.'] + cents;
  }

  /** A numeral in the '1,234.56' convention never contains 'X'. */
  lemma NumeralHasNoX(s: string)
    requires Numeral(s, ',', '.')
    ensures 'X' !in s
  {
    if |s| > 0 && s[0] == '-' {
      UnsignedHasNoX(s[1..]);
      assert s == ['-'] + s[1..];
    } else {
      UnsignedHasNoX(s);
    }
  }

  /**
   Swapping the separators of an integer part grouped with ',' gives the
   same digits grouped with '.'.
   */
  lemma {:induction false} SwapGrouped(s: string, t: string)
    requires Grouped(s, ',') && Swapped(s, t)
    ensures Grouped(t, '.')
  {
    var n := |s|;
    if n <= 3 {
      SwapDigits(s, t);
    } else {
      SwappedSlice(s, t, 0, n - 4);
      SwappedSlice(s, t, n - 3, n);
      SwapGrouped(s[..n - 4], t[..n - 4]);
      SwapDigits(s[n - 3..], t[n - 3..]);
      assert t[n - 4] == SwapChar(s[n - 4]);
    }
  }

  /** An unsigned '1,234.56' numeral becomes the unsigned '1.234,56' numeral. */
  lemma SwapUnsigned(s: string, t: string)
    requires Unsigned(s, ',', '.') && Swapped(s, t)
    ensures Unsigned(t, '.', ',')
  {
    var n := |s|;
    SwappedSlice(s, t, 0, n - 3);
    SwappedSlice(s, t, n - 2, n);
    SwapGrouped(s[..n - 3], t[..n - 3]);
    SwapDigits(s[n - 2..], t[n - 2..]);
    assert t[n - 3] == SwapChar(s[n - 3]);
  }

  /**
   A numeral in the '1,234.56' convention becomes the same numeral in the
   Brazilian '1.234,56' convention.
   */
  lemma SwapNumeral(s: string)
    requires Numeral(s, ',', '.')
    ensures Numeral(SwapSeparators(s), '.', ',')
  {
    var t := SwapSeparators(s);
    assert Swapped(s, t);
    if |s| > 0 && s[0] == '-' {
      SwappedSlice(s, t, 1, |s|);
      SwapUnsigned(s[1..], t[1..]);
      assert t[0] == SwapChar(s[0]);
    } else {
      SwapUnsigned(s, t);
      assert |t| == 0 || t[0] == SwapChar(s[0]);
    }
  }

  /**
   The currency rendering of a '1,234.56' numeral is "R$ " followed by the
   Brazilian numeral, from which the original numeral can be recovered.
   */
  lemma FormatBrlNumeral(numeral: string)
    requires Numeral(numeral, ',', '.')
    ensures FormatBrl(numeral)[..3] == "R$ "
    ensures Numeral(FormatBrl(numeral)[3..], '.', ',')
    ensures SwapSeparators(FormatBrl(numeral)[3..]) == numeral
  {
    var r := FormatBrl(numeral);
    assert r[3..] == SwapSeparators(numeral);
    SwapNumeral(numeral);
    NumeralHasNoX(numeral);
    SwapSeparatorsInvolutive(numeral);
  }

  /** The currency rendering of 1,242.24 in Brazilian convention. */
  lemma ExemploFormatBrl(s: string)
    requires s == "1,242.24"
    ensures FormatBrl(s) == "R$ 1.242,24"
  {
  }

  /** The percentage rendering of 20.22. */
  lemma ExemploFormatPct()
    ensures FormatPct("20.22") == "20.22%"
  {
  }
}
