/** Character-level helpers the lineage parser and the row writer rely on:
    trimming quote characters from both ends of a string, and splitting and
    joining on a one-character separator with the semantics of Rust's
    `str::split(char)`. */
module Strings {

  const Quote: char := '"'

  /** Position of the first character at or after `i` that is not a quote:
      the end of the quote run starting at `i`. */
  function QuoteRunEnd(s: string, i: nat): (j: nat)
    requires i <= |s|
    ensures i <= j <= |s|
    ensures forall k | i <= k < j :: s[k] == Quote
    ensures j < |s| ==> s[j] != Quote
    decreases |s| - i
  {
    if i < |s| && s[i] == Quote then QuoteRunEnd(s, i + 1) else i
  }

  /** Position just after the last character before `j`, and not before
      `lo`, that is not a quote: the start of the quote run ending at `j`. */
  function QuoteRunStart(s: string, lo: nat, j: nat): (e: nat)
    requires lo <= j <= |s|
    ensures lo <= e <= j
    ensures forall k | e <= k < j :: s[k] == Quote
    ensures e > lo ==> s[e - 1] != Quote
    decreases j
  {
    if j > lo && s[j - 1] == Quote then QuoteRunStart(s, lo, j - 1) else j
  }

  /** Rust's `trim_matches('"')`: removes every quote character from both
      ends, however many there are. What is left is a contiguous piece of
      `s`, surrounded only by quotes, that neither starts nor ends with one. */
  function TrimQuotes(s: string): (r: string)
    ensures exists i :: QuotedAround(s, r, i)
    ensures |r| > 0 ==> r[0] != Quote && r[|r| - 1] != Quote
  {
    var lo := QuoteRunEnd(s, 0);
    var hi := QuoteRunStart(s, lo, |s|);
    assert QuotedAround(s, s[lo..hi], lo);
    s[lo..hi]
  }

  /** `r` occurs in `s` at position `i` with only quotes before and after it. */
  predicate QuotedAround(s: string, r: string, i: int) {
    && 0 <= i <= |s| - |r|
    && r == s[i..i + |r|]
    && (forall k | 0 <= k < i :: s[k] == Quote)
    && (forall k | i + |r| <= k < |s| :: s[k] == Quote)
  }

  /** Trimming twice trims nothing more. */
  lemma TrimQuotesIdempotent(s: string)
    ensures TrimQuotes(TrimQuotes(s)) == TrimQuotes(s)
  {
    var r := TrimQuotes(s);
    TrimQuotesKeepsUnquoted(r);
  }

  /** A string that neither starts nor ends with a quote is left as it is. */
  lemma TrimQuotesKeepsUnquoted(s: string)
    requires |s| > 0 ==> s[0] != Quote && s[|s| - 1] != Quote
    ensures TrimQuotes(s) == s
  {
    assert QuoteRunEnd(s, 0) == 0;
    assert QuoteRunStart(s, 0, |s|) == |s|;
    assert s[0..|s|] == s;
  }

  /** Total length of the strings in `fields`. */
  function SumLen(fields: seq<string>): nat {
    if |fields| == 0 then 0 else SumLen(fields[..|fields| - 1]) + |fields[|fields| - 1]|
  }

  /** The fields of `s` between occurrences of `sep`, as Rust's
      `str::split(sep)` yields them: the empty string gives one empty field
      and a trailing separator gives a trailing empty field. */
  function Split(s: string, sep: char): (fields: seq<string>)
    ensures |fields| >= 1
    decreases |s|
  {
    if |s| == 0 then
      [""]
    else
      var init := Split(s[..|s| - 1], sep);
      var c := s[|s| - 1];
      if c == sep then init + [""] else ExtendLast(init, c)
  }

  /** No field of `fields` contains `sep`. */
  predicate Unseparated(fields: seq<string>, sep: char) {
    forall k | 0 <= k < |fields| :: sep !in fields[k]
  }

  /** No field of a split contains the separator. */
  lemma {:induction false} SplitUnseparated(s: string, sep: char)
    ensures Unseparated(Split(s, sep), sep)
    decreases |s|
  {
    if |s| > 0 {
      var s' := s[..|s| - 1];
      var c := s[|s| - 1];
      SplitUnseparated(s', sep);
      var init := Split(s', sep);
      if c != sep {
        var last := init[|init| - 1];
        assert sep !in last;
        assert sep !in last + [c];
      }
    }
  }

  /** `fields` written one after another with `sep` between neighbours. */
  function Join(fields: seq<string>, sep: char): (s: string)
    ensures |fields| >= 1 ==> |s| == SumLen(fields) + |fields| - 1
    decreases |fields|
  {
    if |fields| == 0 then ""
    else if |fields| == 1 then fields[0]
    else Join(fields[..|fields| - 1], sep) + [sep] + fields[|fields| - 1]
  }

  /** Number of occurrences of `c` in `s`. */
  function Count(s: string, c: char): nat {
    if |s| == 0 then 0 else Count(s[..|s| - 1], c) + (if s[|s| - 1] == c then 1 else 0)
  }

  /** Splitting yields one field more than there are separators. */
  lemma {:induction false} SplitCount(s: string, sep: char)
    ensures |Split(s, sep)| == Count(s, sep) + 1
    decreases |s|
  {
    if |s| > 0 {
      SplitCount(s[..|s| - 1], sep);
    }
  }

  /** Joining the fields of a split gives back the string. */
  lemma {:induction false} JoinSplit(s: string, sep: char)
    ensures Join(Split(s, sep), sep) == s
    decreases |s|
  {
    if |s| > 0 {
      var s' := s[..|s| - 1];
      var c := s[|s| - 1];
      assert s == s' + [c];
      JoinSplit(s', sep);
      if c == sep {
        JoinSplitSeparator(s', sep);
      } else {
        assert Split(s, sep) == ExtendLast(Split(s', sep), c);
        JoinExtendLast(Split(s', sep), c, sep);
      }
    }
  }

  /** Extending the last field extends the joined string. */
  lemma JoinExtendLast(fields: seq<string>, c: char, sep: char)
    requires |fields| >= 1
    ensures Join(ExtendLast(fields, c), sep) == Join(fields, sep) + [c]
  {
    var n := |fields|;
    var fs := ExtendLast(fields, c);
    if n > 1 {
      assert fs[..n - 1] == fields[..n - 1];
    }
  }

  /** The step of `JoinSplit` where the last character is the separator. */
  lemma JoinSplitSeparator(s: string, sep: char)
    requires Join(Split(s, sep), sep) == s
    ensures Join(Split(s + [sep], sep), sep) == s + [sep]
  {
    var t := s + [sep];
    assert t[..|t| - 1] == s;
    var fs := Split(s, sep) + [""];
    assert Split(t, sep) == fs;
    assert fs[..|fs| - 1] == Split(s, sep);
  }

  /** A string without the separator is a single field. */
  lemma {:induction false} SplitWithoutSeparator(f: string, sep: char)
    requires sep !in f
    ensures Split(f, sep) == [f]
    decreases |f|
  {
    if |f| > 0 {
      var f' := f[..|f| - 1];
      var c := f[|f| - 1];
      assert f == f' + [c];
      assert c != sep;
      assert sep !in f';
      assert Split(f', sep) == [f'] by {
        SplitWithoutSeparator(f', sep);
      }
      assert Split(f' + [c], sep) == ExtendLast([f'], c) by {
        SplitSnoc(f', c, sep);
      }
    }
  }

  /** Splitting around one separator splits each side independently. */
  lemma {:induction false} SplitAround(x: string, y: string, sep: char)
    ensures Split(x + [sep] + y, sep) == Split(x, sep) + Split(y, sep)
    decreases |y|
  {
    if |y| == 0 {
      SplitSnoc(x, sep, sep);
      assert x + [sep] + y == x + [sep];
    } else {
      var y' := y[..|y| - 1];
      var c := y[|y| - 1];
      var s' := x + [sep] + y';
      assert y == y' + [c];
      assert x + [sep] + y == s' + [c];
      var a := Split(x, sep);
      var b := Split(y', sep);
      assert Split(s' + [c], sep) == a + Split(y' + [c], sep) by {
        SplitAround(x, y', sep);
        SplitSnoc(s', c, sep);
        SplitSnoc(y', c, sep);
        if c == sep {
          assert (a + b) + [""] == a + (b + [""]);
        } else {
          ExtendLastAppend(a, b, c);
        }
      }
    }
  }

  /** Splitting a string with one more character: a separator opens a new
      empty field, any other character extends the last field. */
  lemma SplitSnoc(s: string, c: char, sep: char)
    ensures Split(s + [c], sep) ==
      if c == sep then Split(s, sep) + [""] else ExtendLast(Split(s, sep), c)
  {
    assert (s + [c])[..|s|] == s;
  }

  /** `fields` with `c` appended to its last field. */
  function ExtendLast(fields: seq<string>, c: char): seq<string>
    requires |fields| >= 1
  {
    fields[..|fields| - 1] + [fields[|fields| - 1] + [c]]
  }

  lemma ExtendLastAppend(a: seq<string>, b: seq<string>, c: char)
    requires |b| >= 1
    ensures ExtendLast(a + b, c) == a + ExtendLast(b, c)
  {
    assert (a + b)[..|a + b| - 1] == a + b[..|b| - 1];
  }

  /** Splitting a join gives back the fields, provided no field holds the
      separator. */
  lemma {:induction false} SplitJoin(fields: seq<string>, sep: char)
    requires |fields| >= 1
    requires Unseparated(fields, sep)
    ensures Split(Join(fields, sep), sep) == fields
    decreases |fields|
  {
    var n := |fields|;
    if n == 1 {
      SplitWithoutSeparator(fields[0], sep);
    } else {
      var init := fields[..n - 1];
      assert Unseparated(init, sep) by {
        forall k | 0 <= k < |init| ensures sep !in init[k] {
          assert init[k] == fields[k];
        }
      }
      var last := fields[n - 1];
      var j := Join(init, sep);
      assert Join(fields, sep) == j + [sep] + last;
      assert Split(j + [sep] + last, sep) == init + [last] by {
        SplitJoin(init, sep);
        SplitAround(j, last, sep);
        SplitWithoutSeparator(last, sep);
      }
      assert fields == init + [last];
    }
  }

  /** Two field lists without separators that join to the same string are
      the same list. */
  lemma JoinInjective(a: seq<string>, b: seq<string>, sep: char)
    requires |a| >= 1 && |b| >= 1
    requires Unseparated(a, sep) && Unseparated(b, sep)
    requires Join(a, sep) == Join(b, sep)
    ensures a == b
  {
    SplitJoin(a, sep);
    SplitJoin(b, sep);
  }

  /** Two field lists without separators whose first `n` fields join to
      the same string agree on those `n` fields. */
  lemma JoinPrefixInjective(a: seq<string>, b: seq<string>, n: nat, sep: char)
    requires 1 <= n <= |a| && n <= |b|
    requires Unseparated(a, sep) && Unseparated(b, sep)
    requires Join(a[..n], sep) == Join(b[..n], sep)
    ensures forall j | 0 <= j < n :: a[j] == b[j]
  {
    var a', b' := a[..n], b[..n];
    assert Unseparated(a', sep) by {
      forall k | 0 <= k < |a'| ensures sep !in a'[k] {
        assert a'[k] == a[k];
      }
    }
    assert Unseparated(b', sep) by {
      forall k | 0 <= k < |b'| ensures sep !in b'[k] {
        assert b'[k] == b[k];
      }
    }
    JoinInjective(a', b', sep);
    forall j | 0 <= j < n ensures a[j] == b[j] {
      assert a[j] == a'[j] && b[j] == b'[j];
    }
  }

  /** The join of the first `k` fields is a prefix of the join of all of them. */
  lemma {:induction false} JoinPrefix(fields: seq<string>, k: nat, sep: char)
    requires 1 <= k <= |fields|
    ensures |Join(fields[..k], sep)| <= |Join(fields, sep)|
    ensures Join(fields, sep)[..|Join(fields[..k], sep)|] == Join(fields[..k], sep)
    decreases |fields| - k
  {
    var n := |fields|;
    if k < n {
      var init := fields[..n - 1];
      assert init[..k] == fields[..k];
      JoinPrefix(init, k, sep);
      assert Join(fields, sep) == Join(init, sep) + [sep] + fields[n - 1];
    } else {
      assert fields[..k] == fields;
    }
  }
}
