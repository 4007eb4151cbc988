/**
 * Strings as Python compares and trims them: the code-point order that
 * `sorted` uses on `str`, the canonical ascending sequence of a set of
 * strings (`sorted(set(...))`), `str.strip()` with no argument, and the
 * decimal rendering of a count.
 */
module Text {

  /** Python's `<` on `str`: lexicographic on code points, a proper prefix first. */
  predicate Less(a: string, b: string)
  {
    if |a| == 0 then |b| > 0
    else if |b| == 0 then false
    else if a[0] != b[0] then a[0] < b[0]
    else Less(a[1..], b[1..])
  }

  predicate LessEq(a: string, b: string)
  {
    a == b || Less(a, b)
  }

  lemma {:induction false} LessIrreflexive(a: string)
    ensures !Less(a, a)
  {
    if |a| > 0 {
      LessIrreflexive(a[1..]);
    }
  }

  lemma {:induction false} LessTransitive(a: string, b: string, c: string)
    requires Less(a, b) && Less(b, c)
    ensures Less(a, c)
  {
    if |a| > 0 && a[0] == b[0] && b[0] == c[0] {
      LessTransitive(a[1..], b[1..], c[1..]);
    }
  }

  lemma {:induction false} LessTotal(a: string, b: string)
    ensures a == b || Less(a, b) || Less(b, a)
  {
    if |a| > 0 && |b| > 0 && a[0] == b[0] {
      LessTotal(a[1..], b[1..]);
      if a[1..] == b[1..] {
        assert a == [a[0]] + a[1..] && b == [b[0]] + b[1..];
      }
    }
  }

  lemma LessAsymmetric(a: string, b: string)
    requires Less(a, b)
    ensures !Less(b, a) && a != b
  {
    LessIrreflexive(a);
    if Less(b, a) {
      LessTransitive(a, b, a);
    }
  }

  /** Every pair of positions is in strict order: sorted and free of duplicates. */
  predicate StrictlyAscending(s: seq<string>)
  {
    forall i, j :: 0 <= i < j < |s| ==> Less(s[i], s[j])
  }

  function Elems(s: seq<string>): set<string>
  {
    set x | x in s
  }

  predicate IsLeast(m: string, s: set<string>)
  {
    m in s && forall y :: y in s ==> LessEq(m, y)
  }

  lemma {:induction false} LeastExists(s: set<string>)
    requires s != {}
    ensures exists m :: IsLeast(m, s)
    decreases |s|
  {
    var x :| x in s;
    if s - {x} == {} {
      assert s == {x};
      assert IsLeast(x, s);
    } else {
      LeastExists(s - {x});
      var m :| IsLeast(m, s - {x});
      LessTotal(m, x);
      if Less(x, m) {
        forall y | y in s ensures LessEq(x, y) {
          if y != x {
            assert LessEq(m, y);
            if m != y { LessTransitive(x, m, y); }
          }
        }
        assert IsLeast(x, s);
      } else {
        assert IsLeast(m, s);
      }
    }
  }

  /** The canonical listing of a finite set: `sorted(s)` for a set of strings. */
  ghost function SortedSeq(s: set<string>): seq<string>
    decreases |s|
  {
    if s == {} then []
    else
      LeastExists(s);
      var m :| IsLeast(m, s);
      [m] + SortedSeq(s - {m})
  }

  /** The listing is strictly ascending and holds exactly the elements of the set. */
  lemma {:induction false} SortedSeqSpec(s: set<string>)
    ensures StrictlyAscending(SortedSeq(s)) && Elems(SortedSeq(s)) == s && |SortedSeq(s)| == |s|
    decreases |s|
  {
    if s != {} {
      var r := SortedSeq(s);
      var m := r[0];
      assert IsLeast(m, s) && r == [m] + SortedSeq(s - {m});
      SortedSeqSpec(s - {m});
      PrependLeast(m, s, SortedSeq(s - {m}));
    }
  }

  lemma PrependLeast(m: string, s: set<string>, rest: seq<string>)
    requires IsLeast(m, s)
    requires StrictlyAscending(rest) && Elems(rest) == s - {m} && |rest| == |s - {m}|
    ensures StrictlyAscending([m] + rest) && Elems([m] + rest) == s && |[m] + rest| == |s|
  {
    forall j | 0 <= j < |rest| ensures Less(m, rest[j]) {
      assert rest[j] in s - {m};
    }
    assert Elems([m] + rest) == {m} + Elems(rest);
  }

  lemma StrictlyAscendingDistinct(s: seq<string>)
    requires StrictlyAscending(s)
    ensures |Elems(s)| == |s|
  {
    if |s| > 0 {
      var t := s[1..];
      assert StrictlyAscending(t);
      StrictlyAscendingDistinct(t);
      forall i | 0 <= i < |t| ensures t[i] != s[0] {
        LessAsymmetric(s[0], t[i]);
      }
      assert Elems(s) == {s[0]} + Elems(t);
    }
  }

  /**
   * Two strictly ascending sequences with the same elements are equal, so
   * `sorted(set(...))` has exactly one possible outcome.
   */
  lemma {:induction false} SortedUnique(x: seq<string>, y: seq<string>)
    requires StrictlyAscending(x) && StrictlyAscending(y)
    requires Elems(x) == Elems(y)
    ensures x == y
    decreases |x|
  {
    if |x| > 0 {
      assert y != [] by { assert x[0] in Elems(y); }
      assert x[0] == y[0] by {
        assert x[0] in Elems(y) && y[0] in Elems(x);
        var i :| 0 <= i < |y| && y[i] == x[0];
        var j :| 0 <= j < |x| && x[j] == y[0];
        if x[0] != y[0] {
          assert i > 0 && j > 0;
          assert Less(y[0], y[i]) && Less(x[0], x[j]);
          LessAsymmetric(x[0], y[0]);
        }
      }
      assert Elems(x[1..]) == Elems(y[1..]) by {
        forall z | z in Elems(x[1..]) ensures z in Elems(y[1..]) {
          var i :| 1 <= i < |x| && x[i] == z;
          LessAsymmetric(x[0], z);
          assert z in Elems(y);
        }
        forall z | z in Elems(y[1..]) ensures z in Elems(x[1..]) {
          var i :| 1 <= i < |y| && y[i] == z;
          LessAsymmetric(y[0], z);
          assert z in Elems(x);
        }
      }
      SortedUnique(x[1..], y[1..]);
      assert x == [x[0]] + x[1..] && y == [y[0]] + y[1..];
    } else {
      StrictlyAscendingDistinct(y);
      assert Elems(x) == {};
    }
  }

  lemma SortedSeqOf(s: seq<string>)
    requires StrictlyAscending(s)
    ensures SortedSeq(Elems(s)) == s
  {
    SortedSeqSpec(Elems(s));
    SortedUnique(SortedSeq(Elems(s)), s);
  }

  /** A one-element set sorts to that element alone. */
  lemma SortedSingleton(x: string)
    ensures SortedSeq({x}) == [x]
  {
    assert Elems([x]) == {x};
    SortedSeqOf([x]);
  }

  lemma SortedEmpty()
    ensures SortedSeq({}) == []
  {
    SortedSeqSpec({});
  }

  /** `sorted(s)` on a set, computed by repeatedly taking the least element. */
  method SortSet(s: set<string>) returns (r: seq<string>)
    ensures r == SortedSeq(s)
  {
    r := [];
    var rest := s;
    while rest != {}
      invariant StrictlyAscending(r)
      invariant Elems(r) + rest == s
      invariant forall i, y :: 0 <= i < |r| && y in rest ==> Less(r[i], y)
      decreases |rest|
    {
      LeastExists(rest);
      var m :| m in rest && IsLeast(m, rest);
      AppendLeast(r, rest, m);
      r := r + [m];
      rest := rest - {m};
    }
    SortedSeqSpec(s);
    SortedUnique(r, SortedSeq(s));
  }

  lemma AppendLeast(r: seq<string>, rest: set<string>, m: string)
    requires StrictlyAscending(r) && IsLeast(m, rest)
    requires forall i, y :: 0 <= i < |r| && y in rest ==> Less(r[i], y)
    ensures StrictlyAscending(r + [m])
    ensures Elems(r + [m]) + (rest - {m}) == Elems(r) + rest
    ensures forall i, y :: 0 <= i < |r + [m]| && y in rest - {m} ==> Less((r + [m])[i], y)
  {
    assert Elems(r + [m]) == Elems(r) + {m};
  }

  /** The characters Python's `str.isspace` accepts, which `str.strip()` removes. */
  predicate IsSpace(c: char)
  {
    c == ' ' || '\t' <= c <= '\r' || '\U{1C}' <= c <= '\U{1F}'
    || c == '\U{85}' || c == '\U{A0}' || c == '\U{1680}'
    || '\U{2000}' <= c <= '\U{200A}' || c == '\U{2028}' || c == '\U{2029}'
    || c == '\U{202F}' || c == '\U{205F}' || c == '\U{3000}'
  }

  function TrimStart(s: string): string
  {
    if |s| > 0 && IsSpace(s[0]) then TrimStart(s[1..]) else s
  }

  function TrimEnd(s: string): string
  {
    if |s| > 0 && IsSpace(s[|s| - 1]) then TrimEnd(s[..|s| - 1]) else s
  }

  /** `lstrip`: the suffix left after the leading whitespace. */
  lemma {:induction false} TrimStartSuffix(s: string)
    ensures var r := TrimStart(s);
            && |r| <= |s| && r == s[|s| - |r|..]
            && (forall k :: 0 <= k < |s| - |r| ==> IsSpace(s[k]))
            && (r == [] || !IsSpace(r[0]))
  {
    if |s| > 0 && IsSpace(s[0]) {
      var t, r := s[1..], TrimStart(s);
      TrimStartSuffix(t);
      assert r == TrimStart(t);
      assert r == s[|s| - |r|..] by {
        assert t[|t| - |r|..] == s[|s| - |r|..];
      }
      forall k | 0 <= k < |s| - |r| ensures IsSpace(s[k]) {
        if k > 0 { assert s[k] == t[k - 1]; }
      }
    }
  }

  /** `rstrip`: the prefix left before the trailing whitespace. */
  lemma {:induction false} TrimEndPrefix(s: string)
    ensures var r := TrimEnd(s);
            && |r| <= |s| && r == s[..|r|]
            && (forall k :: |r| <= k < |s| ==> IsSpace(s[k]))
            && (r == [] || !IsSpace(r[|r| - 1]))
  {
    if |s| > 0 && IsSpace(s[|s| - 1]) {
      TrimEndPrefix(s[..|s| - 1]);
    }
  }

  /** Python's `s.strip()`: the slice left after removing surrounding whitespace. */
  function Strip(s: string): string
  {
    TrimEnd(TrimStart(s))
  }

  /**
   * `strip` removes only whitespace, only at the two ends, and all of it:
   * the result is a slice of the input, what lies outside the slice is
   * whitespace, and the result neither starts nor ends with whitespace.
   */
  lemma StripIsTrimmedSlice(s: string)
    ensures var r := Strip(s);
            exists i, j ::
              && 0 <= i <= j <= |s| && r == s[i..j]
              && (forall k :: 0 <= k < i ==> IsSpace(s[k]))
              && (forall k :: j <= k < |s| ==> IsSpace(s[k]))
    ensures var r := Strip(s);
            r == [] || (!IsSpace(r[0]) && !IsSpace(r[|r| - 1]))
  {
    var t := TrimStart(s);
    var r := TrimEnd(t);
    TrimStartSuffix(s);
    TrimEndPrefix(t);
    var i := |s| - |t|;
    assert r == s[i..i + |r|];
    assert forall k :: i + |r| <= k < |s| ==> s[k] == t[k - i];
  }

  /** Text that neither starts nor ends with whitespace is left as it is. */
  lemma StripUnchanged(s: string)
    requires s != [] && !IsSpace(s[0]) && !IsSpace(s[|s| - 1])
    ensures Strip(s) == s
  {
    assert TrimStart(s) == s;
  }

  function Digit(d: nat): char
    requires d < 10
  {
    "0123456789"[d]
  }

  /** The decimal text of a count, as an f-string renders an `int`. */
  function Decimal(n: nat): (r: string)
    ensures |r| > 0 && forall k :: 0 <= k < |r| ==> '0' <= r[k] <= '9'
  {
    if n < 10 then [Digit(n)] else Decimal(n / 10) + [Digit(n % 10)]
  }

  /** The number a string of decimal digits denotes, most significant first. */
  function DigitsValue(s: string): int
  {
    if s == [] then 0 else 10 * DigitsValue(s[..|s| - 1]) + (s[|s| - 1] as int - '0' as int)
  }

  lemma DigitValue(d: nat)
    requires d < 10
    ensures Digit(d) as int - '0' as int == d
  {
  }

  /** The rendered digits denote the count itself. */
  lemma {:induction false} DecimalValue(n: nat)
    ensures DigitsValue(Decimal(n)) == n
  {
    var r := Decimal(n);
    if n < 10 {
      DigitValue(n);
      assert r[..0] == [];
    } else {
      DecimalValue(n / 10);
      DigitValue(n % 10);
      assert r[..|r| - 1] == Decimal(n / 10);
    }
  }
}
