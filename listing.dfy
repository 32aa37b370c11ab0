/**
  Parsing of the bucket listing's directory prefixes (`<platform>/<rev>/`) into
  snapshot items, as loadSnapshots does with
  `prefix.split('/')`, `+rev` and a truthiness filter.
*/
module Listing {
  import opened Wrappers
  import opened Types

  const Separator: char := '/'

  /** The parts joined back with the separator between them. */
  function Join(parts: seq<string>): (s: string)
    requires |parts| >= 1
  {
    if |parts| == 1 then parts[0] else parts[0] + [Separator] + Join(parts[1..])
  }

  /**
    String.prototype.split with a one-character separator: the text between
    consecutive separators, always at least one (possibly empty) part.
  */
  function Split(s: string): (parts: seq<string>)
    ensures |parts| >= 1
    ensures forall i :: 0 <= i < |parts| ==> Separator !in parts[i]
    ensures Join(parts) == s
  {
    if s == [] then [[]]
    else
      var rest := Split(s[1..]);
      if s[0] == Separator then
        assert Join([[]] + rest) == [] + [Separator] + Join(rest) by {
          assert ([[]] + rest)[1..] == rest;
        }
        [[]] + rest
      else
        var parts := [[s[0]] + rest[0]] + rest[1..];
        assert |rest| > 1 ==> Join(parts) == [s[0]] + Join(rest) by {
          if |rest| > 1 {
            assert parts[1..] == rest[1..];
          }
        }
        parts
  }

  /** Splitting text whose first part is `p` peels `p` off the front. */
  lemma {:induction false} SplitAppend(p: string, r: string)
    requires Separator !in p
    ensures Split(p + r) == [p + Split(r)[0]] + Split(r)[1..]
  {
    if p != [] {
      var s := p + r;
      assert s[0] == p[0] && s[0] != Separator;
      assert s[1..] == p[1..] + r;
      SplitAppend(p[1..], r);
      var rest := Split(s[1..]);
      assert rest[0] == p[1..] + Split(r)[0];
      assert rest[1..] == Split(r)[1..];
      assert Split(s) == [[s[0]] + rest[0]] + rest[1..];
      assert p == [p[0]] + p[1..];
      assert [s[0]] + rest[0] == p + Split(r)[0];
    } else {
      assert p + r == r && p + Split(r)[0] == Split(r)[0];
      assert Split(r) == [Split(r)[0]] + Split(r)[1..];
    }
  }

  /** The first part of the split is the text before the first separator. */
  lemma FirstSegment(p: string, s: string)
    requires Separator !in p && p + [Separator] <= s
    ensures Split(s)[0] == p
  {
    var r := s[|p|..];
    assert s == p + r;
    SplitAppend(p, r);
    assert r[0] == Separator;
    assert Split(r) == [[]] + Split(r[1..]);
  }

  /** Split undoes Join when no part contains the separator. */
  lemma {:induction false} SplitJoin(parts: seq<string>)
    requires |parts| >= 1
    requires forall i :: 0 <= i < |parts| ==> Separator !in parts[i]
    ensures Split(Join(parts)) == parts
  {
    if |parts| == 1 {
      SplitAppend(parts[0], []);
      assert parts[0] + [] == parts[0];
    } else {
      SplitJoin(parts[1..]);
      var r := [Separator] + Join(parts[1..]);
      assert Join(parts) == parts[0] + r;
      SplitAppend(parts[0], r);
      assert r != [] && r[0] == Separator && r[1..] == Join(parts[1..]);
      assert Split(r) == [[]] + Split(r[1..]);
      assert Split(r)[0] == [] && Split(r)[1..] == parts[1..];
      assert parts[0] + [] == parts[0];
      assert parts == [parts[0]] + parts[1..];
    }
  }

  predicate IsDigit(c: char) {
    '0' <= c <= '9'
  }

  predicate IsDecimal(s: string) {
    forall i :: 0 <= i < |s| ==> IsDigit(s[i])
  }

  /** The number a string of decimal digits denotes (0 for the empty string). */
  function DecimalValue(s: string): nat
    requires IsDecimal(s)
  {
    if s == [] then 0 else 10 * DecimalValue(s[..|s| - 1]) + (s[|s| - 1] as int - '0' as int)
  }

  /** The digit character for 0 <= d < 10. */
  function Digit(d: nat): (c: char)
    requires d < 10
    ensures IsDigit(c) && c as int - '0' as int == d
  {
    ('0' as int + d) as char
  }

  /** The canonical decimal spelling of n: no leading zero except for 0 itself. */
  function DecimalString(n: nat): (s: string)
    ensures |s| >= 1 && IsDecimal(s)
    ensures DecimalValue(s) == n
    ensures s[0] == '0' ==> n == 0
    ensures Separator !in s
  {
    if n < 10 then [Digit(n)]
    else
      var s := DecimalString(n / 10) + [Digit(n % 10)];
      assert s[..|s| - 1] == DecimalString(n / 10);
      s
  }

  /** Leading zeros do not change the value of a digit string. */
  lemma {:induction false} LeadingZero(s: string)
    requires IsDecimal(s)
    ensures IsDecimal(['0'] + s) && DecimalValue(['0'] + s) == DecimalValue(s)
  {
    if s != [] {
      var z := ['0'] + s;
      assert z[..|z| - 1] == ['0'] + s[..|s| - 1];
      LeadingZero(s[..|s| - 1]);
    }
  }

  /** A digit string is worth 0, and so falsy, exactly when every digit is `0`. */
  lemma {:induction false} ZeroIffAllZeros(s: string)
    requires IsDecimal(s)
    ensures DecimalValue(s) == 0 <==> forall i :: 0 <= i < |s| ==> s[i] == '0'
  {
    if s != [] {
      var init := s[..|s| - 1];
      ZeroIffAllZeros(init);
      assert forall i :: 0 <= i < |init| ==> init[i] == s[i];
    }
  }

  /**
    The value of `+rev` for a revision segment, restricted to decimal digit
    strings: the empty string is 0, anything else that is not all digits is NaN.
  */
  function NumberValue(rev: string): Option<nat> {
    if IsDecimal(rev) then Some(DecimalValue(rev)) else None
  }

  /**
    One listing prefix: its first path segment is the platform, its second the
    revision; an entry whose revision is missing, NaN or 0 is dropped.
  */
  function ParseItem(prefix: string): (r: Option<Snapshot>)
    ensures r.Some? ==> r.value.revision > 0 && Separator !in r.value.platform
    ensures r.Some? ==> r.value.platform + [Separator] <= prefix
  {
    var parts := Split(prefix);
    if |parts| < 2 then None
    else
      match NumberValue(parts[1])
      case Some(v) =>
        if v != 0 then
          assert prefix == parts[0] + [Separator] + Join(parts[1..]);
          Some(Snapshot(parts[0], v))
        else None
      case None => None
  }

  /** A page's prefixes mapped through ParseItem, dropping the entries that do not parse. */
  function ParseItems(prefixes: seq<string>): (items: seq<Snapshot>)
    ensures |items| <= |prefixes|
    ensures forall x :: x in items <==> exists i :: 0 <= i < |prefixes| && ParseItem(prefixes[i]) == Some(x)
  {
    if prefixes == [] then []
    else
      var head := match ParseItem(prefixes[0]) case Some(x) => [x] case None => [];
      var items := head + ParseItems(prefixes[1..]);
      assert forall x :: x in items ==> exists i :: 0 <= i < |prefixes| && ParseItem(prefixes[i]) == Some(x) by {
        forall x | x in items
          ensures exists i :: 0 <= i < |prefixes| && ParseItem(prefixes[i]) == Some(x)
        {
          if x !in head {
            var j :| 0 <= j < |prefixes[1..]| && ParseItem(prefixes[1..][j]) == Some(x);
            assert ParseItem(prefixes[j + 1]) == Some(x);
          }
        }
      }
      assert forall i :: 0 <= i < |prefixes| && ParseItem(prefixes[i]).Some? ==> ParseItem(prefixes[i]).value in items by {
        forall i | 0 <= i < |prefixes| && ParseItem(prefixes[i]).Some?
          ensures ParseItem(prefixes[i]).value in items
        {
          if i > 0 {
            assert prefixes[1..][i - 1] == prefixes[i];
          }
        }
      }
      items
  }

  /** The listing prefix under which the bucket stores a snapshot's build. */
  function ListingPrefix(s: Snapshot): string
    requires s.revision >= 0
  {
    s.platform + [Separator] + DecimalString(s.revision) + [Separator]
  }

  /**
    Which entries survive: for a prefix whose first segment is `p` and whose
    second segment is `d`, an item comes out exactly when `d` is a nonempty
    digit string with a nonzero value, and then it is `(p, value of d)`.
  */
  lemma ParseSegments(p: string, d: string, rest: string)
    requires Separator !in p && Separator !in d
    requires rest == [] || rest[0] == Separator
    ensures ParseItem(p + [Separator] + d + rest).Some? <==> IsDecimal(d) && d != [] && DecimalValue(d) != 0
    ensures ParseItem(p + [Separator] + d + rest).Some? ==>
              ParseItem(p + [Separator] + d + rest) == Some(Snapshot(p, DecimalValue(d)))
  {
    SplitSegments(p, d, rest);
    if IsDecimal(d) && d == [] {
      assert DecimalValue(d) == 0;
    }
  }

  /** A leading separator splits off an empty first part. */
  lemma SplitLeadingSeparator(r: string)
    ensures Split([Separator] + r) == [[]] + Split(r)
  {
    assert ([Separator] + r)[1..] == r;
  }

  /** The first part of `d<rest>` is `d` when `rest` is empty or starts a new part. */
  lemma SplitFirstOfSegment(d: string, rest: string)
    requires Separator !in d
    requires rest == [] || rest[0] == Separator
    ensures Split(d + rest)[0] == d
  {
    if rest == [] {
      SplitAppend(d, rest);
      assert d + [] == d;
    } else {
      assert d + [Separator] <= d + rest;
      FirstSegment(d, d + rest);
    }
  }

  /** The first two parts of `p/d<rest>` are `p` and `d`. */
  lemma SplitSegments(p: string, d: string, rest: string)
    requires Separator !in p && Separator !in d
    requires rest == [] || rest[0] == Separator
    ensures |Split(p + [Separator] + d + rest)| >= 2
    ensures Split(p + [Separator] + d + rest)[0] == p
    ensures Split(p + [Separator] + d + rest)[1] == d
  {
    var tail := [Separator] + (d + rest);
    assert p + [Separator] + d + rest == p + tail;
    SplitAppend(p, tail);
    SplitLeadingSeparator(d + rest);
    SplitFirstOfSegment(d, rest);
    assert Split(tail)[0] == [] && Split(tail)[1] == d;
    assert p + [] == p;
  }

  /** A listing entry written with leading zeros parses to the same snapshot. */
  lemma ParseIgnoresLeadingZeros(p: string, d: string)
    requires Separator !in p && IsDecimal(d) && DecimalValue(d) != 0
    ensures ParseItem(p + [Separator] + (['0'] + d) + [Separator]) == Some(Snapshot(p, DecimalValue(d)))
  {
    LeadingZero(d);
    ParseSegments(p, ['0'] + d, [Separator]);
  }

  /** Parsing recovers every snapshot from its listing prefix. */
  lemma ParseListingPrefix(s: Snapshot)
    requires Separator !in s.platform && s.revision > 0
    ensures ParseItem(ListingPrefix(s)) == Some(s)
  {
    ParseSegments(s.platform, DecimalString(s.revision), [Separator]);
  }

  /** A prefix with no separator has no revision segment and yields no item. */
  lemma ParseMissingRevision(p: string)
    requires Separator !in p
    ensures ParseItem(p) == None
  {
    SplitAppend(p, []);
    assert p + [] == p;
  }

  /** A non-numeric revision segment is dropped. */
  lemma ParseNonNumericExample()
    ensures ParseItem("win64/abcd/") == None
  {
    ParseSegments("win64", "abcd", "/");
    assert "win64/abcd/" == "win64" + [Separator] + "abcd" + "/";
    assert !IsDigit("abcd"[0]);
  }

  /** A numeric revision segment yields the snapshot. */
  lemma ParseNumericExample()
    ensures ParseItem("win64/12345/") == Some(Snapshot("win64", 12345))
  {
    ParseSegments("win64", "12345", "/");
    assert "win64/12345/" == "win64" + [Separator] + "12345" + "/";
    DecimalValueExample();
  }

  lemma DecimalValueExample()
    ensures IsDecimal("12345") && DecimalValue("12345") == 12345
  {
    assert "1"[..0] == "";
    assert DecimalValue("1") == 1;
    assert "12"[..1] == "1";
    assert DecimalValue("12") == 12;
    assert "123"[..2] == "12";
    assert DecimalValue("123") == 123;
    assert "1234"[..3] == "123";
    assert DecimalValue("1234") == 1234;
    assert "12345"[..4] == "1234";
  }

  /** Revision "0" and an empty revision segment are falsy and dropped. */
  lemma ParseZeroExamples()
    ensures ParseItem("win64/0/") == None
    ensures ParseItem("win64//") == None
  {
    ParseSegments("win64", "0", "/");
    assert "win64/0/" == "win64" + [Separator] + "0" + "/";
    assert DecimalValue("0") == 0 by {
      assert "0"[..0] == "";
    }
    ParseSegments("win64", "", "/");
    assert "win64//" == "win64" + [Separator] + "" + "/";
  }
}
