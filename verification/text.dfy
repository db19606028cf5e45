/** Python string formatting and splitting, as the scripts use them:
    `str(n)` / `f"{n}"` for naturals, `"{:02d}"` and strftime's two-digit
    fields, `str.split(sep)`, `str.split(sep, 1)` and `sep.join(parts)`. */
module Text {
  import opened Results

  predicate IsDigit(c: char) {
    '0' <= c <= '9'
  }

  predicate AllDigits(s: string) {
    forall i :: 0 <= i < |s| ==> IsDigit(s[i])
  }

  function DigitChar(d: nat): (c: char)
    requires d < 10
    ensures IsDigit(c)
  {
    ('0' as int + d) as char
  }

  function DigitValue(c: char): nat {
    if IsDigit(c) then (c as int - '0' as int) as nat else 0
  }

  /** Decimal rendering of a natural number, without padding. */
  function Dec(n: nat): (s: string)
    ensures 1 <= |s|
    ensures AllDigits(s)
    ensures n < 10 <==> |s| == 1
    decreases n
  {
    if n < 10 then [DigitChar(n)] else Dec(n / 10) + [DigitChar(n % 10)]
  }

  /** Reads a run of decimal digits back; leading zeros contribute nothing. */
  function ParseDec(s: string): nat
    decreases |s|
  {
    if |s| == 0 then 0 else ParseDec(s[..|s| - 1]) * 10 + DigitValue(s[|s| - 1])
  }

  /** Zero padding to at least two characters, as in `f"{n:02d}"` and as
      strftime renders `%m`, `%d`, `%H` and `%M`. */
  function Dec02(n: nat): (s: string)
    ensures 2 <= |s|
    ensures n < 100 ==> |s| == 2
    ensures AllDigits(s)
  {
    if n < 10 then ['0'] + Dec(n) else Dec(n)
  }

  lemma {:induction false} ParseDecOfDec(n: nat)
    ensures ParseDec(Dec(n)) == n
    decreases n
  {
    var s := Dec(n);
    if n < 10 {
      assert s[..|s| - 1] == [];
    } else {
      assert s[..|s| - 1] == Dec(n / 10);
      assert s[|s| - 1] == DigitChar(n % 10);
      ParseDecOfDec(n / 10);
    }
  }

  lemma {:induction false} ParseDecLeadingZero(t: string)
    ensures ParseDec(['0'] + t) == ParseDec(t)
    decreases |t|
  {
    if |t| == 0 {
      assert (['0'] + t)[..0] == [];
    } else {
      var s := ['0'] + t;
      assert s[..|s| - 1] == ['0'] + t[..|t| - 1];
      assert s[|s| - 1] == t[|t| - 1];
      ParseDecLeadingZero(t[..|t| - 1]);
    }
  }

  lemma ParseDecOfDec02(n: nat)
    ensures ParseDec(Dec02(n)) == n
  {
    ParseDecOfDec(n);
    if n < 10 {
      ParseDecLeadingZero(Dec(n));
    }
  }

  /** Distinct numbers render as distinct text, padded or not. */
  lemma DecInjective(a: nat, b: nat)
    ensures Dec(a) == Dec(b) ==> a == b
    ensures Dec02(a) == Dec02(b) ==> a == b
  {
    ParseDecOfDec(a);
    ParseDecOfDec(b);
    ParseDecOfDec02(a);
    ParseDecOfDec02(b);
  }

  /** `sep` occurs in `s` starting at index `i`. */
  predicate OccursAt(s: string, sep: string, i: int) {
    0 <= i && i + |sep| <= |s| && s[i..i + |sep|] == sep
  }

  /** No occurrence of `sep` anywhere in `s`. */
  predicate Free(s: string, sep: string) {
    forall j :: 0 <= j <= |s| ==> !OccursAt(s, sep, j)
  }

  /** Index of the first occurrence of `sep` at or after `i`, as `str.find`. */
  function FindFrom(s: string, sep: string, i: nat): (r: Option<nat>)
    ensures r.Some? ==> i <= r.value && OccursAt(s, sep, r.value)
    ensures r.Some? ==> forall j :: i <= j < r.value ==> !OccursAt(s, sep, j)
    ensures r.None? ==> forall j :: i <= j ==> !OccursAt(s, sep, j)
    decreases |s| - i
  {
    if i + |sep| > |s| then None
    else if s[i..i + |sep|] == sep then Some(i)
    else FindFrom(s, sep, i + 1)
  }

  /** `sep.join(parts)`. */
  function Join(parts: seq<string>, sep: string): string
    decreases |parts|
  {
    if |parts| == 0 then ""
    else if |parts| == 1 then parts[0]
    else parts[0] + sep + Join(parts[1..], sep)
  }

  /** Joining one more part appends the separator and that part. */
  lemma {:induction false} JoinSnoc(parts: seq<string>, p: string, sep: string)
    requires 1 <= |parts|
    ensures Join(parts + [p], sep) == Join(parts, sep) + sep + p
    decreases |parts|
  {
    var ps := parts + [p];
    assert ps[1..] == parts[1..] + [p];
    if |parts| > 1 {
      JoinSnoc(parts[1..], p, sep);
    }
  }

  /** `s.split(sep)` for a non-empty separator: the pieces between
      left-to-right, non-overlapping occurrences of `sep`; the empty string
      splits into one empty piece. */
  function Split(s: string, sep: string): (parts: seq<string>)
    requires |sep| > 0
    ensures 1 <= |parts|
    ensures Join(parts, sep) == s
    ensures forall k :: 0 <= k < |parts| ==> Free(parts[k], sep)
    decreases |s|
  {
    match FindFrom(s, sep, 0)
    case None => [s]
    case Some(j) =>
      var rest := Split(s[j + |sep|..], sep);
      assert Free(s[..j], sep) by {
        forall i | OccursAt(s[..j], sep, i)
          ensures false
        {
          assert s[i..i + |sep|] == s[..j][i..i + |sep|];
          assert OccursAt(s, sep, i);
        }
      }
      assert s == s[..j] + sep + s[j + |sep|..];
      [s[..j]] + rest
  }

  /** `s.split(sep, 1)`: at most two pieces, cut at the first occurrence. */
  function SplitOnce(s: string, sep: string): (parts: seq<string>)
    requires |sep| > 0
    ensures |parts| == 1 || |parts| == 2
    ensures |parts| == 1 <==> Free(s, sep)
    ensures |parts| == 1 ==> parts[0] == s
    ensures |parts| == 2 ==> parts[0] + sep + parts[1] == s && Free(parts[0], sep)
  {
    match FindFrom(s, sep, 0)
    case None => [s]
    case Some(j) =>
      assert Free(s[..j], sep) by {
        forall i | OccursAt(s[..j], sep, i)
          ensures false
        {
          assert s[i..i + |sep|] == s[..j][i..i + |sep|];
          assert OccursAt(s, sep, i);
        }
      }
      assert s == s[..j] + sep + s[j + |sep|..];
      [s[..j], s[j + |sep|..]]
  }

  /** For a one-character separator, being free of it is not containing it. */
  lemma FreeOfChar(s: string, c: char)
    ensures Free(s, [c]) <==> c !in s
  {
    if c in s {
      var j :| 0 <= j < |s| && s[j] == c;
      assert OccursAt(s, [c], j);
    } else {
      forall j | 0 <= j < |s|
        ensures !OccursAt(s, [c], j)
      {
        assert s[j..j + 1] == [s[j]];
      }
    }
  }

  /** Splitting undoes joining as long as no part contains the
      separator's first character (so every occurrence is a joint). */
  lemma {:induction false} SplitOfJoin(parts: seq<string>, sep: string)
    requires |sep| > 0 && 1 <= |parts|
    requires forall k :: 0 <= k < |parts| ==> sep[0] !in parts[k]
    ensures Split(Join(parts, sep), sep) == parts
    decreases |parts|
  {
    var s := Join(parts, sep);
    if |parts| == 1 {
      forall j | 0 <= j < |s|
        ensures !OccursAt(s, sep, j)
      {
        assert s[j] in parts[0];
      }
      assert FindFrom(s, sep, 0).None?;
    } else {
      var p := parts[0];
      var tail := Join(parts[1..], sep);
      assert s == p + sep + tail;
      assert OccursAt(s, sep, |p|);
      forall j | 0 <= j < |p|
        ensures !OccursAt(s, sep, j)
      {
        assert s[j] == p[j];
      }
      assert FindFrom(s, sep, 0) == Some(|p|);
      assert s[|p| + |sep|..] == tail;
      SplitOfJoin(parts[1..], sep);
      assert Split(s, sep) == [p] + parts[1..];
    }
  }

  /** Cutting `k + sep + v` at the first `sep` gives back `k` and `v` when
      `k` does not contain the separator's first character; `v` may. */
  lemma SplitOnceOfPair(k: string, sep: string, v: string)
    requires |sep| > 0 && sep[0] !in k
    ensures SplitOnce(k + sep + v, sep) == [k, v]
  {
    var s := k + sep + v;
    assert OccursAt(s, sep, |k|);
    forall j | 0 <= j < |k|
      ensures !OccursAt(s, sep, j)
    {
      assert s[j] == k[j];
    }
    assert FindFrom(s, sep, 0) == Some(|k|);
    assert s[..|k|] == k && s[|k| + |sep|..] == v;
  }
}
