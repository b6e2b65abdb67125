/**
 * The few java.lang.String and java.lang.Integer operations that the VCF
 * converter relies on, stated on Dafny strings: `startsWith`, `split` with a
 * one-character separator, `Integer.parseInt` and the decimal rendering an
 * `int` gets when it is concatenated to a string.
 */
module JavaText {

  const IntMin: int := -0x8000_0000
  const IntMax: int := 0x7fff_ffff

  /**
   * The `int` Java holds after computing `x` with `+` and `-` on `int`
   * operands: `x` wrapped around into the 32-bit range, modulo 2^32.
   */
  function Int32(x: int): (r: int)
    ensures IntMin <= r <= IntMax
    ensures IntMin <= x <= IntMax ==> r == x
  {
    (x - IntMin) % 0x1_0000_0000 + IntMin
  }

  /** `s.startsWith(prefix)`: `s` is `prefix` followed by the rest of `s`. */
  predicate StartsWith(s: string, prefix: string)
    ensures StartsWith(s, prefix) ==> |prefix| <= |s| && s == prefix + s[|prefix|..]
  {
    |prefix| <= |s| && s[..|prefix|] == prefix
  }

  // ---------------------------------------------------------------------
  // split
  // ---------------------------------------------------------------------

  /** The pieces joined back with `sep` between them (the inverse of SplitAll). */
  function Join(pieces: seq<string>, sep: char): string
    requires |pieces| > 0
  {
    if |pieces| == 1 then pieces[0] else pieces[0] + [sep] + Join(pieces[1..], sep)
  }

  /** Number of occurrences of `c` in `s`. */
  function Count(s: string, c: char): nat {
    if s == [] then 0 else (if s[0] == c then 1 else 0) + Count(s[1..], c)
  }

  /**
   * Every piece of `s` between occurrences of `sep`, empty ones included:
   * one more piece than there are separators.
   */
  function SplitAll(s: string, sep: char): (pieces: seq<string>)
    ensures |pieces| == Count(s, sep) + 1
    ensures forall i :: 0 <= i < |pieces| ==> sep !in pieces[i]
  {
    if s == [] then [""]
    else if s[0] == sep then [""] + SplitAll(s[1..], sep)
    else
      var rest := SplitAll(s[1..], sep);
      [[s[0]] + rest[0]] + rest[1..]
  }

  /** `pieces` without its trailing run of empty strings. */
  function DropTrailingEmpty(pieces: seq<string>): (r: seq<string>)
    ensures r <= pieces
    ensures r == [] || r[|r| - 1] != ""
    ensures forall i :: |r| <= i < |pieces| ==> pieces[i] == ""
  {
    if pieces == [] then []
    else if pieces[|pieces| - 1] == "" then DropTrailingEmpty(pieces[..|pieces| - 1])
    else pieces
  }

  /**
   * `s.split(String.valueOf(sep))` for a separator that is not a regular
   * expression metacharacter: when `sep` does not occur the result is `[s]`
   * (so `""` gives `[""]`); otherwise it is every piece with the trailing
   * empty pieces removed (so `"\t"` split on tab gives `[]`).
   */
  function Split(s: string, sep: char): (r: seq<string>)
    ensures forall i :: 0 <= i < |r| ==> sep !in r[i]
  {
    if sep !in s then [s] else DropTrailingEmpty(SplitAll(s, sep))
  }

  // ---------------------------------------------------------------------
  // Integer.parseInt / Integer.toString
  // ---------------------------------------------------------------------

  predicate IsDigit(c: char) {
    '0' <= c <= '9'
  }

  predicate AllDigits(s: string) {
    forall i :: 0 <= i < |s| ==> IsDigit(s[i])
  }

  /** The value of a string of decimal digits, most significant first (ParseInt calls it on digits only). */
  function DigitsValue(s: string): (v: int)
    ensures AllDigits(s) ==> 0 <= v
  {
    if s == [] then 0 else DigitsValue(s[..|s| - 1]) * 10 + (s[|s| - 1] as int - '0' as int)
  }

  function DigitChar(d: nat): (c: char)
    requires d < 10
    ensures IsDigit(c) && (c - '0') as nat == d
  {
    '0' + d as char
  }

  /** Decimal digits of `n` without leading zeros ("0" for zero). */
  function NatToString(n: nat): (s: string)
    ensures |s| > 0 && AllDigits(s)
    ensures |s| > 1 ==> s[0] != '0'
  {
    if n < 10 then [DigitChar(n)] else NatToString(n / 10) + [DigitChar(n % 10)]
  }

  /** The text Java writes for an `int` concatenated to a string. */
  function IntToString(n: int): (s: string)
    ensures |s| > 0
    ensures forall i :: 0 <= i < |s| ==> IsDigit(s[i]) || (i == 0 && s[i] == '-')
  {
    if n < 0 then "-" + NatToString(-n) else NatToString(n)
  }

  /**
   * `Integer.parseInt(s)`: an optional sign followed by at least one decimal
   * digit, whose value lies in the 32-bit range; anything else is the
   * NumberFormatException, here `None`.
   */
  function ParseInt(s: string): (r: Option<int>)
    ensures r.Some? ==> IntMin <= r.value <= IntMax
    ensures r.Some? ==> |s| > 0
  {
    if s == [] then None
    else
      var negative := s[0] == '-';
      var digits := if s[0] == '-' || s[0] == '+' then s[1..] else s;
      if digits == [] || !AllDigits(digits) then None
      else
        var v: int := if negative then -DigitsValue(digits) else DigitsValue(digits);
        if IntMin <= v <= IntMax then Some(v) else None
  }

  datatype Option<T> = None | Some(value: T)

  // ---------------------------------------------------------------------
  // Lemmas
  // ---------------------------------------------------------------------

  /** Reading the digits back gives the number. */
  lemma {:induction false} NatToStringValue(n: nat)
    ensures DigitsValue(NatToString(n)) == n
  {
    if n >= 10 {
      var s := NatToString(n / 10) + [DigitChar(n % 10)];
      assert s[..|s| - 1] == NatToString(n / 10);
      NatToStringValue(n / 10);
    }
  }

  /** parseInt reads back every 32-bit value Java writes. */
  lemma ParseIntToString(n: int)
    requires IntMin <= n <= IntMax
    ensures ParseInt(IntToString(n)) == Some(n)
  {
    if n < 0 {
      AfterSign(NatToString(-n));
      NatToStringValue(-n);
    } else {
      NatToStringValue(n);
    }
  }

  /** The text after a leading minus sign. */
  lemma AfterSign(digits: string)
    ensures ("-" + digits)[1..] == digits
  {
  }

  /** Wrapping around differs from the exact value by a multiple of 2^32. */
  lemma Int32Congruent(x: int)
    ensures (Int32(x) - x) % 0x1_0000_0000 == 0
  {
    var m := 0x1_0000_0000;
    assert Int32(x) - x == -((x - IntMin) / m) * m;
  }

  /**
   * Wrapping once at the end is wrapping after every step: an `int` that
   * Java has already wrapped, moved by `d`, wraps to the same value as the
   * exact sum.
   */
  lemma WrapOnce(x: int, d: int)
    ensures Int32(Int32(x) + d) == Int32(x + d)
  {
    Int32Congruent(x);
  }

  /** Any string starts with a string followed by anything. */
  lemma StartsWithAppend(prefix: string, rest: string)
    ensures StartsWith(prefix + rest, prefix)
  {
    assert (prefix + rest)[..|prefix|] == prefix;
  }

  /** A piece without the separator, then the separator, splits off first. */
  lemma {:induction false} SplitAllAfter(a: string, b: string, sep: char)
    requires sep !in a
    ensures SplitAll(a + [sep] + b, sep) == [a] + SplitAll(b, sep)
  {
    if a == [] {
      assert a + [sep] + b == [sep] + b;
      assert ([sep] + b)[1..] == b;
    } else {
      var s := a + [sep] + b;
      assert s[0] == a[0];
      assert s[1..] == a[1..] + [sep] + b;
      SplitAllAfter(a[1..], b, sep);
      assert [a[0]] + a[1..] == a;
    }
  }

  /** Joining the pieces back with the separator gives the string. */
  lemma {:induction false} SplitAllJoin(s: string, sep: char)
    ensures Join(SplitAll(s, sep), sep) == s
  {
    if s != [] {
      SplitAllJoin(s[1..], sep);
      var rest := SplitAll(s[1..], sep);
      if s[0] == sep {
        assert ([""] + rest)[1..] == rest;
        assert s == [sep] + s[1..];
      } else {
        var pieces := [[s[0]] + rest[0]] + rest[1..];
        assert pieces[1..] == rest[1..];
        if |rest| == 1 {
          assert s == [s[0]] + s[1..];
        } else {
          assert s == [s[0]] + (rest[0] + [sep] + Join(rest[1..], sep));
        }
      }
    }
  }

  /** A separator and a piece without it, appended, add that piece at the end. */
  lemma {:induction false} SplitAllAppend(s: string, p: string, sep: char)
    requires sep !in p
    ensures SplitAll(s + [sep] + p, sep) == SplitAll(s, sep) + [p]
  {
    if s == [] {
      DropFirst([], sep, p);
      SplitAllWhole(p, sep);
    } else {
      DropFirst(s, sep, p);
      SplitAllAppend(s[1..], p, sep);
      if s[0] != sep {
        DropFirstOfLonger(SplitAll(s[1..], sep), [p]);
      }
    }
  }

  /** The first character of a string with a separator and a piece appended, and the rest. */
  lemma DropFirst(s: string, sep: char, p: string)
    ensures var t := s + [sep] + p;
      t[0] == (if s == [] then sep else s[0]) &&
      t[1..] == (if s == [] then p else s[1..] + [sep] + p)
  {
  }

  lemma DropFirstOfLonger<T>(a: seq<T>, b: seq<T>)
    requires a != []
    ensures (a + b)[1..] == a[1..] + b
  {
  }

  /** A string without the separator is a single piece. */
  lemma {:induction false} SplitAllWhole(a: string, sep: char)
    requires sep !in a
    ensures SplitAll(a, sep) == [a]
  {
    if a != [] {
      assert a[1..] + [] == a[1..];
      SplitAllWhole(a[1..], sep);
      assert [a[0]] + a[1..] == a;
    }
  }

  /** When `s` does not end with the separator, the last piece is not empty. */
  lemma {:induction false} SplitAllLastNonEmpty(s: string, sep: char)
    requires s != [] && s[|s| - 1] != sep
    ensures SplitAll(s, sep)[|SplitAll(s, sep)| - 1] != ""
  {
    if |s| > 1 {
      assert s[1..][|s[1..]| - 1] == s[|s| - 1];
      SplitAllLastNonEmpty(s[1..], sep);
    }
  }

  /**
   * With a non-empty string that does not end with the separator, split
   * drops nothing: there is one piece more than there are separators.
   */
  lemma SplitKeepsAll(s: string, sep: char)
    requires s != [] && s[|s| - 1] != sep
    ensures Split(s, sep) == SplitAll(s, sep)
    ensures |Split(s, sep)| == Count(s, sep) + 1
  {
    if sep in s {
      SplitAllLastNonEmpty(s, sep);
    } else {
      SplitAllWhole(s, sep);
    }
  }

  /** A string made only of separators has only empty pieces. */
  lemma {:induction false} SplitAllOnlySeparators(s: string, sep: char)
    requires forall i :: 0 <= i < |s| ==> s[i] == sep
    ensures forall j :: 0 <= j < |SplitAll(s, sep)| ==> SplitAll(s, sep)[j] == ""
  {
    if s != [] {
      SplitAllOnlySeparators(s[1..], sep);
    }
  }

  /** A character other than the separator lands in some non-empty piece. */
  lemma {:induction false} SplitAllNonEmptyPiece(s: string, sep: char, i: nat)
    requires i < |s| && s[i] != sep
    ensures exists j :: 0 <= j < |SplitAll(s, sep)| && SplitAll(s, sep)[j] != ""
  {
    var pieces := SplitAll(s, sep);
    if i == 0 {
      assert pieces[0] != "";
    } else {
      SplitAllNonEmptyPiece(s[1..], sep, i - 1);
      var rest := SplitAll(s[1..], sep);
      var j :| 0 <= j < |rest| && rest[j] != "";
      if s[0] == sep {
        assert pieces[j + 1] == rest[j];
      } else if j == 0 {
        assert pieces[0] != "";
      } else {
        assert pieces[j] == rest[j];
      }
    }
  }

  /**
   * split returns no piece at all exactly when the string is non-empty and
   * made only of separators.
   */
  lemma SplitEmpty(s: string, sep: char)
    ensures Split(s, sep) == [] <==> (s != [] && forall i :: 0 <= i < |s| ==> s[i] == sep)
  {
    if s != [] && forall i :: 0 <= i < |s| ==> s[i] == sep {
      assert s[0] == sep;
      SplitAllOnlySeparators(s, sep);
    } else if s != [] && sep in s {
      var i :| 0 <= i < |s| && s[i] != sep;
      SplitAllNonEmptyPiece(s, sep, i);
    }
  }

  /** A character absent from the string is absent from every piece. */
  lemma {:induction false} SplitAllAvoids(s: string, sep: char, c: char)
    requires c !in s
    ensures forall i :: 0 <= i < |SplitAll(s, sep)| ==> c !in SplitAll(s, sep)[i]
  {
    if s != [] {
      assert c !in s[1..] by {
        assert forall j :: 0 <= j < |s[1..]| ==> s[1..][j] == s[j + 1];
      }
      SplitAllAvoids(s[1..], sep, c);
    }
  }

  /** The same for split, which keeps a prefix of the pieces or the whole string. */
  lemma SplitAvoids(s: string, sep: char, c: char)
    requires c !in s
    ensures forall i :: 0 <= i < |Split(s, sep)| ==> c !in Split(s, sep)[i]
  {
    if sep in s {
      SplitAllAvoids(s, sep, c);
      var all := SplitAll(s, sep);
      assert forall i :: 0 <= i < |Split(s, sep)| ==> Split(s, sep)[i] == all[i];
    }
  }

  /** Neither a tab nor a comma appears in the text of a number. */
  lemma IntToStringAvoids(n: int, c: char)
    requires !IsDigit(c) && c != '-'
    ensures c !in IntToString(n)
  {
  }
}
