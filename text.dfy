/**
 * The Python text operations the request handler is built from: substring
 * search (`x in s`), `s.split(sep)`, `int(s)` on a decimal string, and the
 * `%d` formatting of a non-negative number. They are generic over the
 * element type where Python offers them on both `str` and `bytes`.
 */
module Text {
  import opened Base

  // ---------------------------------------------------------------------
  // Substring search
  // ---------------------------------------------------------------------

  /** `p` occurs in `s` starting at index `i`. */
  predicate OccursAt<T(==)>(s: seq<T>, p: seq<T>, i: int)
  {
    0 <= i && i + |p| <= |s| && s[i..i + |p|] == p
  }

  /** Dropping the first element of `s` shifts every occurrence one place left. */
  lemma OccursAtTail<T>(s: seq<T>, p: seq<T>)
    requires |s| > 0
    ensures forall j :: 0 < j ==> (OccursAt(s, p, j) <==> OccursAt(s[1..], p, j - 1))
  {
    forall j | 0 < j ensures OccursAt(s, p, j) <==> OccursAt(s[1..], p, j - 1) {
      if j + |p| <= |s| {
        assert s[1..][j - 1..j - 1 + |p|] == s[j..j + |p|];
      }
    }
  }

  /** An index moved `n` places to the right. */
  function Shift(r: Option<nat>, n: nat): Option<nat>
  {
    match r
    case None => None
    case Some(i) => Some(i + n)
  }

  lemma ShiftShift(r: Option<nat>, a: nat, b: nat)
    ensures Shift(Shift(r, a), b) == Shift(r, a + b)
  {
  }

  /** The outer pieces of a three-piece concatenation are slices of it. */
  lemma Slices3<T>(a: seq<T>, b: seq<T>, c: seq<T>)
    ensures (a + b + c)[..|a|] == a
    ensures (a + b + c)[|a| + |b|..] == c
  {
    assert a + b + c == a + (b + c);
  }

  /** Index of the leftmost occurrence of `p` in `s` (Python's `find`), if any. */
  function IndexOf<T(==)>(s: seq<T>, p: seq<T>): (r: Option<nat>)
    ensures r.Some? ==> r.value + |p| <= |s|
    decreases |s|
  {
    if |s| < |p| then None
    else if s[..|p|] == p then Some(0)
    else
      match IndexOf(s[1..], p)
      case None => None
      case Some(k) => Some(k + 1)
  }

  /** A text that does not start with the pattern has its leftmost occurrence one place later than its tail's. */
  lemma IndexOfStep<T>(s: seq<T>, p: seq<T>)
    requires |s| >= |p| && s[..|p|] != p
    ensures IndexOf(s, p) == Shift(IndexOf(s[1..], p), 1)
  {
  }

  /** `IndexOf` finds an occurrence with none before it, and finds none only when there is none. */
  lemma {:induction false} IndexOfSpec<T>(s: seq<T>, p: seq<T>)
    ensures IndexOf(s, p).Some? ==> OccursAt(s, p, IndexOf(s, p).value)
    ensures IndexOf(s, p).Some? ==> forall j :: 0 <= j < IndexOf(s, p).value ==> !OccursAt(s, p, j)
    ensures IndexOf(s, p).None? ==> forall j :: !OccursAt(s, p, j)
    decreases |s|
  {
    if |s| >= |p| {
      assert s[0..|p|] == s[..|p|];
      if s[..|p|] != p {
        OccursAtTail(s, p);
        IndexOfSpec(s[1..], p);
      }
    }
  }

  /** Python's `p in s`. */
  predicate Contains<T(==)>(s: seq<T>, p: seq<T>)
  {
    IndexOf(s, p).Some?
  }

  /** `p in s` holds exactly when `p` occurs somewhere in `s`. */
  lemma ContainsIff<T>(s: seq<T>, p: seq<T>)
    ensures Contains(s, p) <==> exists j :: OccursAt(s, p, j)
  {
    IndexOfSpec(s, p);
  }

  /** The leftmost occurrence is determined by being an occurrence with none before it. */
  lemma IndexOfIs<T>(s: seq<T>, p: seq<T>, i: nat)
    requires OccursAt(s, p, i)
    requires forall j :: 0 <= j < i ==> !OccursAt(s, p, j)
    ensures IndexOf(s, p) == Some(i)
  {
    IndexOfSpec(s, p);
  }

  /** Appending or prepending data never removes an occurrence. */
  lemma ContainsExtended<T>(s: seq<T>, p: seq<T>, pre: seq<T>, post: seq<T>)
    requires Contains(s, p)
    ensures Contains(pre + s + post, p)
  {
    ContainsIff(s, p);
    var j :| OccursAt(s, p, j);
    ContainsIff(pre + s + post, p);
    assert (pre + s + post)[|pre| + j..|pre| + j + |p|] == s[j..j + |p|];
    assert OccursAt(pre + s + post, p, |pre| + j);
  }

  /** A prefix that holds no copy of the pattern's first element cannot hold the start of an occurrence. */
  lemma {:induction false} IndexOfSkip<T>(u: seq<T>, x: seq<T>, p: seq<T>)
    requires |p| > 0
    requires p[0] !in u
    ensures IndexOf(u + x, p) == Shift(IndexOf(x, p), |u|)
  {
    if |u| > 0 {
      IndexOfSkip(u[1..], x, p);
      assert (u + x)[1..] == u[1..] + x;
      if |u + x| >= |p| {
        assert (u + x)[..|p|][0] == u[0];
      }
    } else {
      assert u + x == x;
    }
  }

  /** A text is what comes before an occurrence, the occurrence, and what comes after it. */
  lemma Around<T>(s: seq<T>, p: seq<T>, i: int)
    requires OccursAt(s, p, i)
    ensures s == s[..i] + p + s[i + |p|..]
  {
    assert s[i..] == s[i..i + |p|] + s[i + |p|..];
    assert s == s[..i] + s[i..];
  }

  /** Nothing before the leftmost occurrence holds an occurrence. */
  lemma PrefixBeforeFirst<T>(s: seq<T>, p: seq<T>, i: nat)
    requires |p| > 0
    requires IndexOf(s, p) == Some(i)
    ensures !Contains(s[..i], p)
  {
    IndexOfSpec(s, p);
    IndexOfSpec(s[..i], p);
    forall j: nat | j < i
      ensures OccursAt(s[..i], p, j) ==> OccursAt(s, p, j)
    {
      if j + |p| <= i {
        assert s[..i][j..j + |p|] == s[j..j + |p|];
      }
    }
  }

  /** One element that differs from the pattern rules out an occurrence. */
  lemma Mismatch<T>(s: seq<T>, p: seq<T>, j: int, k: int)
    requires 0 <= k < |p| && 0 <= j + k < |s| && s[j + k] != p[k]
    ensures !OccursAt(s, p, j)
  {
    if 0 <= j && j + |p| <= |s| {
      assert s[j..j + |p|][k] == s[j + k];
    }
  }

  /** An occurrence of a one-element pattern is an index holding that element. */
  lemma OccursSingle<T>(s: seq<T>, c: T, j: int)
    ensures OccursAt(s, [c], j) <==> 0 <= j < |s| && s[j] == c
  {
    if 0 <= j < |s| {
      assert s[j..j + 1] == [s[j]];
    }
  }

  // ---------------------------------------------------------------------
  // split and join
  // ---------------------------------------------------------------------

  /**
   * Python's `s.split(sep)` for a non-empty separator: the pieces between
   * the non-overlapping occurrences of `sep`, found from the left.
   */
  function Split<T(==)>(s: seq<T>, sep: seq<T>): (parts: seq<seq<T>>)
    requires |sep| > 0
    ensures |parts| >= 1
    decreases |s|
  {
    match IndexOf(s, sep)
    case None => [s]
    case Some(i) => [s[..i]] + Split(s[i + |sep|..], sep)
  }

  /** A split yields a single piece exactly when the separator does not occur. */
  lemma SplitOne<T>(s: seq<T>, sep: seq<T>)
    requires |sep| > 0
    ensures |Split(s, sep)| == 1 <==> !Contains(s, sep)
  {
  }

  /** Python's `sep.join(parts)`. */
  function Join<T>(sep: seq<T>, parts: seq<seq<T>>): seq<T>
  {
    if |parts| == 0 then []
    else if |parts| == 1 then parts[0]
    else parts[0] + sep + Join(sep, parts[1..])
  }

  /** The first piece of a split ends at the leftmost separator; the rest is the split of what follows it. */
  lemma SplitAt<T>(s: seq<T>, sep: seq<T>, i: nat)
    requires |sep| > 0 && IndexOf(s, sep) == Some(i)
    ensures Split(s, sep) == [s[..i]] + Split(s[i + |sep|..], sep)
  {
  }

  lemma JoinCons<T>(sep: seq<T>, p: seq<T>, tail: seq<seq<T>>)
    requires |tail| >= 1
    ensures Join(sep, [p] + tail) == p + sep + Join(sep, tail)
  {
    assert ([p] + tail)[1..] == tail;
  }

  /** Splitting loses nothing: joining the pieces restores the text. */
  lemma {:induction false} JoinSplit<T>(s: seq<T>, sep: seq<T>)
    requires |sep| > 0
    ensures Join(sep, Split(s, sep)) == s
    decreases |s|
  {
    var r := IndexOf(s, sep);
    if r.Some? {
      var i := r.value;
      var rest := s[i + |sep|..];
      JoinSplit(rest, sep);
      IndexOfSpec(s, sep);
      SplitAt(s, sep, i);
      JoinCons(sep, s[..i], Split(rest, sep));
      Around(s, sep, i);
    }
  }

  /** No piece of a split holds the separator. */
  lemma {:induction false} SplitPiecesFree<T>(s: seq<T>, sep: seq<T>)
    requires |sep| > 0
    ensures forall k :: 0 <= k < |Split(s, sep)| ==> !Contains(Split(s, sep)[k], sep)
    decreases |s|
  {
    match IndexOf(s, sep)
    case None =>
    case Some(i) =>
      var rest := s[i + |sep|..];
      SplitPiecesFree(rest, sep);
      var tail := Split(rest, sep);
      PrefixBeforeFirst(s, sep, i);
      assert Split(s, sep) == [s[..i]] + tail;
      forall k | 0 <= k < 1 + |tail|
        ensures !Contains(([s[..i]] + tail)[k], sep)
      {
        if k > 0 { assert ([s[..i]] + tail)[k] == tail[k - 1]; }
      }
  }

  /** Joining pieces free of the separator's first element and splitting again gives back the pieces. */
  lemma {:induction false} SplitJoin<T>(parts: seq<seq<T>>, sep: seq<T>)
    requires |sep| > 0 && |parts| >= 1
    requires forall k :: 0 <= k < |parts| ==> sep[0] !in parts[k]
    ensures Split(Join(sep, parts), sep) == parts
    decreases |parts|
  {
    var p0 := parts[0];
    IndexOfSkip(p0, [], sep);
    assert p0 + [] == p0;
    if |parts| > 1 {
      var rest := Join(sep, parts[1..]);
      IndexOfSkip(p0, sep + rest, sep);
      assert OccursAt(sep + rest, sep, 0);
      assert IndexOf(sep + rest, sep) == Some(0);
      assert p0 + (sep + rest) == Join(sep, parts);
      assert (p0 + (sep + rest))[|p0| + |sep|..] == rest;
      SplitJoin(parts[1..], sep);
      assert (p0 + (sep + rest))[..|p0|] == p0;
    }
  }

  /** Number of occurrences of `x` in `s`. */
  function Count<T(==)>(s: seq<T>, x: T): nat
  {
    if |s| == 0 then 0 else (if s[0] == x then 1 else 0) + Count(s[1..], x)
  }

  lemma {:induction false} CountAppend<T>(a: seq<T>, b: seq<T>, x: T)
    ensures Count(a + b, x) == Count(a, x) + Count(b, x)
  {
    if |a| == 0 {
      assert a + b == b;
    } else {
      assert (a + b)[1..] == a[1..] + b;
      CountAppend(a[1..], b, x);
    }
  }

  lemma {:induction false} CountAbsent<T>(s: seq<T>, x: T)
    requires x !in s
    ensures Count(s, x) == 0
  {
    if |s| > 0 {
      assert x !in s[1..];
      CountAbsent(s[1..], x);
    }
  }

  /** Splitting on a one-element separator gives one piece more than there are separators. */
  lemma {:induction false} SplitPieces<T>(s: seq<T>, c: T)
    ensures |Split(s, [c])| == Count(s, c) + 1
    decreases |s|
  {
    IndexOfSpec(s, [c]);
    match IndexOf(s, [c])
    case None =>
      forall j | 0 <= j < |s| ensures s[j] != c {
        OccursSingle(s, c, j);
      }
      CountAbsent(s, c);
    case Some(i) =>
      var rest := s[i + 1..];
      SplitPieces(rest, c);
      forall j | 0 <= j < i ensures s[..i][j] != c {
        OccursSingle(s, c, j);
      }
      CountAbsent(s[..i], c);
      OccursSingle(s, c, i);
      assert s == s[..i] + [c] + rest;
      CountAppend(s[..i] + [c], rest, c);
      CountAppend(s[..i], [c], c);
  }

  // ---------------------------------------------------------------------
  // int() on text, and %d formatting
  // ---------------------------------------------------------------------

  /** The whitespace `int()` skips around a number: tab, line feed, vertical tab, form feed, carriage return, space. */
  predicate IsSpace(c: char)
  {
    c == ' ' || '\t' <= c <= '\r'
  }

  predicate IsDigit(c: char)
  {
    '0' <= c <= '9'
  }

  predicate AllSpace(s: string)
  {
    forall i :: 0 <= i < |s| ==> IsSpace(s[i])
  }

  predicate AllDigits(s: string)
  {
    forall i :: 0 <= i < |s| ==> IsDigit(s[i])
  }

  /** `s` without its leading whitespace. */
  function StripLeft(s: string): (t: string)
    ensures |t| <= |s|
    decreases |s|
  {
    if |s| > 0 && IsSpace(s[0]) then StripLeft(s[1..]) else s
  }

  /** `StripLeft` removes a prefix of whitespace, and all of it. */
  lemma {:induction false} StripLeftSpec(s: string)
    ensures StripLeft(s) == s[|s| - |StripLeft(s)|..]
    ensures AllSpace(s[..|s| - |StripLeft(s)|])
    ensures StripLeft(s) == [] || !IsSpace(StripLeft(s)[0])
    decreases |s|
  {
    if |s| > 0 && IsSpace(s[0]) {
      var t := StripLeft(s[1..]);
      StripLeftSpec(s[1..]);
      assert s[1..][|s| - 1 - |t|..] == s[|s| - |t|..];
      forall i | 0 <= i < |s| - |t| ensures IsSpace(s[i]) {
        if i > 0 {
          assert s[i] == s[1..][..|s| - 1 - |t|][i - 1];
        }
      }
    }
  }

  /** `s` without its trailing whitespace. */
  function StripRight(s: string): (t: string)
    ensures |t| <= |s|
    decreases |s|
  {
    if |s| > 0 && IsSpace(s[|s| - 1]) then StripRight(s[..|s| - 1]) else s
  }

  /** `StripRight` removes a suffix of whitespace, and all of it. */
  lemma {:induction false} StripRightSpec(s: string)
    ensures StripRight(s) == s[..|StripRight(s)|]
    ensures AllSpace(s[|StripRight(s)|..])
    ensures StripRight(s) == [] || !IsSpace(StripRight(s)[|StripRight(s)| - 1])
    decreases |s|
  {
    if |s| > 0 && IsSpace(s[|s| - 1]) {
      var u := s[..|s| - 1];
      var t := StripRight(u);
      StripRightSpec(u);
      assert u[..|t|] == s[..|t|];
      forall i | |t| <= i < |s| ensures IsSpace(s[i]) {
        if i < |s| - 1 {
          assert s[i] == u[|t|..][i - |t|];
        }
      }
    }
  }

  /** Python's `s.strip()` restricted to the whitespace above. */
  function Strip(s: string): string
  {
    StripRight(StripLeft(s))
  }

  /** The value of a run of decimal digits, most significant first. */
  function Decimal(d: string): nat
    requires AllDigits(d)
    decreases |d|
  {
    if |d| == 0 then 0
    else
      assert IsDigit(d[|d| - 1]);
      Decimal(d[..|d| - 1]) * 10 + (d[|d| - 1] as int - '0' as int)
  }

  /**
   * Python's `int(s)` for base 10: optional surrounding whitespace, an
   * optional sign, then at least one decimal digit. Anything else raises,
   * which is `None` here.
   */
  function ParseInt(s: string): Option<int>
  {
    ParseSigned(Strip(s))
  }

  /** An optional sign followed by at least one decimal digit, and nothing else. */
  function ParseSigned(t: string): Option<int>
  {
    if |t| > 0 && (t[0] == '+' || t[0] == '-') then
      if |t| > 1 && AllDigits(t[1..]) then
        var magnitude: int := Decimal(t[1..]);
        Some(if t[0] == '-' then -magnitude else magnitude)
      else
        None
    else if |t| > 0 && AllDigits(t) then
      Some(Decimal(t))
    else
      None
  }

  function DigitChar(d: int): (c: char)
    requires 0 <= d < 10
    ensures IsDigit(c) && c as int - '0' as int == d
  {
    ('0' as int + d) as char
  }

  /** `"%d" % n` for a non-negative `n`: decimal digits without leading zeros. */
  function ShowNat(n: nat): (s: string)
    ensures |s| > 0 && AllDigits(s)
    ensures |s| > 1 ==> s[0] != '0'
    decreases n
  {
    if n < 10 then [DigitChar(n)] else ShowNat(n / 10) + [DigitChar(n % 10)]
  }

  /** `"%d" % n` (also `str(n)`) for any integer. */
  function Show(n: int): (s: string)
    ensures |s| > 0 && !IsSpace(s[0]) && IsDigit(s[|s| - 1])
    ensures IsDigit(s[0]) || s[0] == '-'
    ensures forall i :: 0 < i < |s| ==> IsDigit(s[i])
  {
    if n < 0 then "-" + ShowNat(-n) else ShowNat(n)
  }

  /** Reading back a formatted natural number gives the number. */
  lemma {:induction false} DecimalShowNat(n: nat)
    ensures Decimal(ShowNat(n)) == n
    decreases n
  {
    if n >= 10 {
      DecimalShowNat(n / 10);
      var s := ShowNat(n);
      assert s[..|s| - 1] == ShowNat(n / 10);
    }
  }

  /** Stripping the left removes exactly a whitespace prefix in front of a non-space. */
  lemma {:induction false} StripLeftPadded(w: string, t: string)
    requires AllSpace(w)
    requires t == [] || !IsSpace(t[0])
    ensures StripLeft(w + t) == t
    decreases |w|
  {
    if |w| > 0 {
      assert (w + t)[1..] == w[1..] + t;
      StripLeftPadded(w[1..], t);
    } else {
      assert w + t == t;
    }
  }

  /** Stripping the right removes exactly a whitespace suffix behind a non-space. */
  lemma {:induction false} StripRightPadded(t: string, w: string)
    requires AllSpace(w)
    requires t == [] || !IsSpace(t[|t| - 1])
    ensures StripRight(t + w) == t
    decreases |w|
  {
    if |w| > 0 {
      assert (t + w)[..|t + w| - 1] == t + w[..|w| - 1];
      StripRightPadded(t, w[..|w| - 1]);
    } else {
      assert t + w == t;
    }
  }

  /** Stripping removes exactly the whitespace padding around a text that begins and ends with non-space. */
  lemma StripPadded(w1: string, t: string, w2: string)
    requires AllSpace(w1) && AllSpace(w2)
    requires |t| > 0 && !IsSpace(t[0]) && !IsSpace(t[|t| - 1])
    ensures Strip(w1 + t + w2) == t
  {
    assert w1 + t + w2 == w1 + (t + w2);
    StripLeftPadded(w1, t + w2);
    StripRightPadded(t, w2);
  }

  /**
   * `int()` reads back what `%d` writes, with any whitespace padding around
   * it (the round trip between the page's numbers and the request handler).
   */
  lemma ParseIntShow(n: int, w1: string, w2: string)
    requires AllSpace(w1) && AllSpace(w2)
    ensures ParseInt(w1 + Show(n) + w2) == Some(n)
  {
    StripPadded(w1, Show(n), w2);
    ParseSignedShow(n);
  }

  lemma ParseSignedShow(n: int)
    ensures ParseSigned(Show(n)) == Some(n)
  {
    var t := Show(n);
    if n < 0 {
      assert t[1..] == ShowNat(-n);
      DecimalShowNat(-n);
    } else {
      DecimalShowNat(n);
    }
  }

  /** `int()` reads back what `%d` writes for a natural number. */
  lemma ParseIntShowNat(n: nat)
    ensures ParseInt(ShowNat(n)) == Some(n)
  {
    ParseIntShow(n, "", "");
    assert "" + Show(n) + "" == ShowNat(n);
  }
}
