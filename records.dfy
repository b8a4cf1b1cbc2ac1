/** The record shape exchanged by server and client, the result type that
    stands for an error response, and the decimal rendering of ids that the
    server's search matches against. */
module Records {

  datatype Option<T> = None | Some(value: T)

  /** A handler's outcome: a success body, or the error a 400 response carries. */
  datatype Result<T, E> = Ok(value: T) | Err(error: E)

  /** One row of the list: `{id, name, description, value}`. */
  datatype Record = Record(id: int, name: string, description: string, value: int)

  /** The set of ids present in a list of records. */
  function IdSet(items: seq<Record>): set<int>
  {
    set r | r in items :: r.id
  }

  /** `items.map(item => item.id)`. */
  function Ids(items: seq<Record>): (ids: seq<int>)
    ensures |ids| == |items|
  {
    seq(|items|, i requires 0 <= i < |items| => items[i].id)
  }

  // ---------------------------------------------------------------------------
  // Decimal rendering of integers, as `Number.prototype.toString()` gives it
  // for integers below 10^21.

  function DigitChar(d: nat): char
    requires d < 10
  {
    "0123456789"[d]
  }

  predicate IsDigit(c: char)
  {
    '0' <= c <= '9'
  }

  predicate AllDigits(s: string)
  {
    forall i :: 0 <= i < |s| ==> IsDigit(s[i])
  }

  /** The shortest decimal string of a natural number: no sign, no leading zero. */
  function NatToDecimal(n: nat): (s: string)
    ensures 1 <= |s| && AllDigits(s)
    ensures s[0] == '0' ==> n == 0
  {
    if n < 10 then [DigitChar(n)] else NatToDecimal(n / 10) + [DigitChar(n % 10)]
  }

  /** `id.toString()` for an integer id. */
  function IntToDecimal(n: int): (s: string)
    ensures 1 <= |s|
    ensures n >= 0 <==> IsDigit(s[0])
  {
    if n < 0 then "-" + NatToDecimal(-n) else NatToDecimal(n)
  }

  /** Reads a string of decimal digits back as a number (the partner of NatToDecimal). */
  function ParseDecimal(s: string): nat
    requires AllDigits(s)
  {
    if s == [] then 0 else ParseDecimal(s[..|s| - 1]) * 10 + (s[|s| - 1] as int - '0' as int)
  }

  /** Rendering then reading back gives the number again. */
  lemma {:induction false} DecimalRoundTrip(n: nat)
    ensures ParseDecimal(NatToDecimal(n)) == n
  {
    if n >= 10 {
      var s := NatToDecimal(n);
      DecimalRoundTrip(n / 10);
      assert s[..|s| - 1] == NatToDecimal(n / 10);
    }
  }

  /** A negative id renders as a minus sign followed by its magnitude. */
  lemma NegativeDecimal(n: int)
    requires n < 0
    ensures IntToDecimal(n)[1..] == NatToDecimal(-n)
  {
    assert ("-" + NatToDecimal(-n))[1..] == NatToDecimal(-n);
  }

  lemma NatToDecimalInjective(a: nat, b: nat)
    requires NatToDecimal(a) == NatToDecimal(b)
    ensures a == b
  {
    DecimalRoundTrip(a);
    DecimalRoundTrip(b);
  }

  /** Equal renderings have the same sign. */
  lemma DecimalSign(a: int, b: int)
    requires IntToDecimal(a) == IntToDecimal(b)
    ensures a >= 0 <==> b >= 0
  {
    assert IntToDecimal(a)[0] == IntToDecimal(b)[0];
  }

  /** Distinct ids render to distinct strings, so the rendering loses nothing. */
  lemma IntToDecimalInjective(a: int, b: int)
    requires IntToDecimal(a) == IntToDecimal(b)
    ensures a == b
  {
    DecimalSign(a, b);
    if a >= 0 {
      NatToDecimalInjective(a, b);
    } else {
      NegativeDecimal(a);
      NegativeDecimal(b);
      NatToDecimalInjective(-a, -b);
    }
  }

  // ---------------------------------------------------------------------------
  // Substring test.

  /** `s.includes(p)`: `p` occurs in `s` as a contiguous, case-sensitive run. */
  predicate Includes(s: string, p: string)
    decreases |s|
  {
    |p| <= |s| && (s[..|p|] == p || Includes(s[1..], p))
  }

  /** `p` is found in `s` starting at position `i`. */
  predicate OccursAt(s: string, p: string, i: int)
  {
    0 <= i <= |s| - |p| && s[i..i + |p|] == p
  }

  /** A run of `s` starting at i >= 1 is the run of `s[1..]` starting at i - 1. */
  lemma SliceOfTail(s: string, i: int, n: nat)
    requires 1 <= i && i + n <= |s|
    ensures s[1..][i - 1..i - 1 + n] == s[i..i + n]
  {
    var a, b := s[1..][i - 1..i - 1 + n], s[i..i + n];
    forall k | 0 <= k < n
      ensures a[k] == b[k]
    {
      assert a[k] == s[1..][i - 1 + k] == s[i + k];
    }
  }

  /** Includes holds exactly when some position of `s` starts a copy of `p`. */
  lemma {:induction false} IncludesAt(s: string, p: string)
    ensures Includes(s, p) <==> exists i :: OccursAt(s, p, i)
    decreases |s|
  {
    if |p| <= |s| && s[..|p|] != p {
      IncludesAt(s[1..], p);
      if Includes(s[1..], p) {
        var i :| OccursAt(s[1..], p, i);
        SliceOfTail(s, i + 1, |p|);
        assert OccursAt(s, p, i + 1);
      } else {
        forall i | 0 < i <= |s| - |p|
          ensures !OccursAt(s, p, i)
        {
          SliceOfTail(s, i, |p|);
          assert !OccursAt(s[1..], p, i - 1);
        }
        assert !OccursAt(s, p, 0);
      }
    } else if |p| <= |s| {
      assert OccursAt(s, p, 0);
    }
  }

  /** The server's search predicate: the id's decimal string contains the search
      text. Name, description and value play no part. */
  predicate IdMatches(id: int, search: string)
  {
    Includes(IntToDecimal(id), search)
  }

  /** Searching "123" finds 123, 1230, 1231 and 2123 ... */
  lemma SearchMatchesExample()
    ensures IdMatches(123, "123") && IdMatches(1230, "123")
    ensures IdMatches(1231, "123") && IdMatches(2123, "123")
  {
    assert IntToDecimal(123) == "123";
    assert IntToDecimal(1230) == "1230";
    assert IntToDecimal(1231) == "1231";
    assert IntToDecimal(2123) == "2123";
    assert "2123"[1..] == "123";
  }

  /** ... and does not find 132 or 1213, whose digits are the same but not in a run. */
  lemma SearchRejectsExample()
    ensures !IdMatches(132, "123") && !IdMatches(1213, "123")
  {
    assert IntToDecimal(132) == "132";
    assert IntToDecimal(1213) == "1213";
    assert "132"[..3][1] != "123"[1];
    assert !Includes("32", "123");
    assert "1213"[..3][2] != "123"[2];
    assert "1213"[1..] == "213";
    assert "213"[..3][0] != "123"[0];
    assert !Includes("13", "123");
  }
}
