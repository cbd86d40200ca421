/**
  A three-part version: built from a dotted string or from three parts,
  rendered with a prefix and an optional ` - Y-M-D` date, bumped by the
  rules of Semantic Versioning 2.0.0 (items 6 to 8), and read back out of a
  `## <prefix>X.Y.Z` header line.
*/
module Versions {
  import opened Base
  import opened Config

  /** A calendar date in local time, rendered `Y-M-D` without zero padding. */
  datatype Date = Date(year: nat, month: nat, day: nat)

  function FormatDate(d: Date): string {
    NatToString(d.year) + "-" + NatToString(d.month) + "-" + NatToString(d.day)
  }

  /**
    `Number(text)` for a version part: surrounding whitespace is ignored, an
    empty part is 0, a run of digits is its decimal value, anything else is
    NaN (`None`).
  */
  function NumberOf(text: string): (r: Option<nat>)
    ensures AllDigits(text) && text != "" ==> r == Some(DigitsValue(text))
    ensures r.Some? ==> AllDigits(Trim(text))
  {
    var t := Trim(text);
    if t == "" then Some(0)
    else if AllDigits(t) then Some(DigitsValue(t))
    else None
  }

  datatype Version = Version(major: nat, minor: nat, patch: nat) {

    /** The `version` getter: the three parts joined by `.`. */
    function VersionString(): (r: string)
      ensures |r| >= 5 && IsDigit(r[0]) && IsDigit(r[|r| - 1])
    {
      NatToString(major) + "." + NatToString(minor) + "." + NatToString(patch)
    }

    /** `toString(prefix, date)`: the date suffix is present exactly when a date is given. */
    function ToString(prefix: string, date: Option<Date>): (r: string)
      ensures StartsWith(r, prefix + VersionString())
      ensures date.None? ==> r == prefix + VersionString()
      ensures date.Some? ==> r == prefix + VersionString() + " - " + FormatDate(date.value)
    {
      prefix + VersionString() + (if date.Some? then " - " + FormatDate(date.value) else "")
    }

    /**
      `nextVersion(kind)`: a new version bumped by Semantic Versioning's rules;
      an unrecognised kind gives the version back unchanged.
    */
    function NextVersion(kind: string): (r: Version)
      ensures kind == "major" ==> r == Version(major + 1, 0, 0)
      ensures kind == "minor" ==> r == Version(major, minor + 1, 0)
      ensures kind == "patch" ==> r == Version(major, minor, patch + 1)
      ensures kind != "major" && kind != "minor" && kind != "patch" ==> r == this
    {
      if kind == "major" then Version(major + 1, 0, 0)
      else if kind == "minor" then Version(major, minor + 1, 0)
      else if kind == "patch" then Version(major, minor, patch + 1)
      else this
    }
  }

  /** Version precedence, Semantic Versioning item 11, for versions without pre-release parts. */
  predicate Less(a: Version, b: Version) {
    || a.major < b.major
    || (a.major == b.major && a.minor < b.minor)
    || (a.major == b.major && a.minor == b.minor && a.patch < b.patch)
  }

  /** A recognised bump always moves to a version of strictly higher precedence. */
  lemma NextVersionIncreases(v: Version, kind: string)
    requires kind == "major" || kind == "minor" || kind == "patch"
    ensures Less(v, v.NextVersion(kind))
    ensures !Less(v.NextVersion(kind), v)
  {
  }

  /**
    The single-string constructor: the text must split on `.` into exactly
    three parts, none of them NaN.
  */
  function FromString(s: string): (r: Result<Version>)
    ensures r.Ok? <==> ThreeNumbers(Split(s, '.'))
    ensures r.Ok? ==> var parts := Split(s, '.');
      r.value == Version(NumberOf(parts[0]).value, NumberOf(parts[1]).value, NumberOf(parts[2]).value)
  {
    var parts := Split(s, '.');
    if !ThreeNumbers(parts) then Err("Invalid version string format")
    else Ok(Version(NumberOf(parts[0]).value, NumberOf(parts[1]).value, NumberOf(parts[2]).value))
  }

  /** Exactly three parts, none of them NaN. */
  predicate ThreeNumbers(parts: seq<string>) {
    |parts| == 3 && NumberOf(parts[0]).Some? && NumberOf(parts[1]).Some? && NumberOf(parts[2]).Some?
  }

  /** The three-string constructor: each part goes through `Number`, none may be NaN. */
  function FromStrings(major: string, minor: string, patch: string): (r: Result<Version>)
    ensures r.Ok? <==> NumberOf(major).Some? && NumberOf(minor).Some? && NumberOf(patch).Some?
    ensures r.Ok? ==> r.value == Version(NumberOf(major).value, NumberOf(minor).value, NumberOf(patch).value)
  {
    match (NumberOf(major), NumberOf(minor), NumberOf(patch))
    case (Some(a), Some(b), Some(c)) => Ok(Version(a, b, c))
    case _ => Err("Invalid version number format")
  }

  /**
    The two constructors agree on a string of three dotted parts: both accept
    it or both throw (with different messages), and they build the same version.
  */
  lemma FromStringAgrees(s: string)
    requires |Split(s, '.')| == 3
    ensures var parts := Split(s, '.');
      && (FromString(s).Ok? <==> FromStrings(parts[0], parts[1], parts[2]).Ok?)
      && (FromString(s).Ok? ==> FromString(s).value == FromStrings(parts[0], parts[1], parts[2]).value)
  {
  }

  /** Three digit strings joined by dots are read as exactly their values. */
  lemma FromStringOfDigits(a: string, b: string, c: string)
    requires a != "" && b != "" && c != ""
    requires AllDigits(a) && AllDigits(b) && AllDigits(c)
    ensures FromString(a + "." + b + "." + c) == Ok(Version(DigitsValue(a), DigitsValue(b), DigitsValue(c)))
  {
    DigitsHaveNoDot(a);
    DigitsHaveNoDot(b);
    DigitsHaveNoDot(c);
    SplitThree(a, b, c);
    var parts := Split(a + "." + b + "." + c, '.');
    assert parts[0] == a && parts[1] == b && parts[2] == c;
    assert NumberOf(a) == Some(DigitsValue(a));
    assert NumberOf(b) == Some(DigitsValue(b));
    assert NumberOf(c) == Some(DigitsValue(c));
    assert ThreeNumbers(parts);
  }

  /** Three pieces without a dot, joined by dots, split back into those pieces. */
  lemma SplitThree(a: string, b: string, c: string)
    requires '.' !in a && '.' !in b && '.' !in c
    ensures Split(a + "." + b + "." + c, '.') == [a, b, c]
  {
    SplitNoSep(c, '.');
    SplitCons(b, c, '.');
    assert b + "." + c == b + ['.'] + c;
    SplitCons(a, b + "." + c, '.');
    assert a + "." + b + "." + c == a + ['.'] + (b + "." + c);
  }

  /** Reading back what the `version` getter renders gives the same version. */
  lemma FromStringVersionString(v: Version)
    ensures FromString(v.VersionString()) == Ok(v)
  {
    FromStringOfDigits(NatToString(v.major), NatToString(v.minor), NatToString(v.patch));
  }

  lemma DigitsHaveNoDot(s: string)
    requires AllDigits(s)
    ensures '.' !in s
  {
    assert forall m :: 0 <= m < |s| ==> IsDigit(s[m]);
  }

  /**
    The single-string constructor rejects a version that carries the date
    suffix `toString` writes by default: the last part is not a number.
  */
  lemma DatedVersionRejected(v: Version, d: Date)
    ensures FromString(v.ToString("", Some(d))).Err?
  {
    var a, b, p := NatToString(v.major), NatToString(v.minor), NatToString(v.patch);
    var y, mo, dd := NatToString(d.year), NatToString(d.month), NatToString(d.day);
    DigitsHaveNoDot(a);
    DigitsHaveNoDot(b);
    DigitsHaveNoDot(p);
    DigitsHaveNoDot(y);
    DigitsHaveNoDot(mo);
    DigitsHaveNoDot(dd);
    var date := FormatDate(d);
    assert date == y + "-" + mo + "-" + dd;
    assert '.' !in date && date[|date| - 1] == dd[|dd| - 1];
    DottedRegroup(a, b, p, " - " + date);
    SplitThree(a, b, p + (" - " + date));
    SpacedNotNumber(p, date);
  }

  lemma DottedRegroup(a: string, b: string, p: string, x: string)
    ensures "" + (a + "." + b + "." + p) + x == a + "." + b + "." + (p + x)
  {
  }

  /** Digits, ` - ` and a text ending in a digit do not make a number. */
  lemma SpacedNotNumber(p: string, date: string)
    requires p != "" && AllDigits(p) && date != "" && IsDigit(date[|date| - 1])
    ensures NumberOf(p + (" - " + date)).None?
  {
    var last := p + (" - " + date);
    assert last[0] == p[0] && last[|last| - 1] == date[|date| - 1];
    TrimUnchanged(last);
    assert last[|p|] == ' ';
  }

  /** The length of the run of ASCII digits that starts at `i` (the greedy `\d+`). */
  function DigitRun(s: string, i: nat): (n: nat)
    requires i <= |s|
    ensures i + n <= |s|
    ensures forall m :: i <= m < i + n ==> IsDigit(s[m])
    ensures i + n == |s| || !IsDigit(s[i + n])
    decreases |s| - i
  {
    if i < |s| && IsDigit(s[i]) then 1 + DigitRun(s, i + 1) else 0
  }

  /** `n` digits at `i` that are not followed by a digit are exactly the run there. */
  lemma {:induction false} DigitRunOf(s: string, i: nat, n: nat)
    requires i + n <= |s| && forall m :: i <= m < i + n ==> IsDigit(s[m])
    requires i + n == |s| || !IsDigit(s[i + n])
    ensures DigitRun(s, i) == n
    decreases n
  {
    if n > 0 {
      DigitRunOf(s, i + 1, n - 1);
    }
  }

  /**
    Where `\d+\.\d+\.\d+` starting at `i` ends, if it matches there. Every
    `\d+` before a `.` must take its whole run, so the match is unique.
  */
  function TripleEnd(s: string, i: nat): (r: Option<nat>)
    requires i <= |s|
    ensures r.Some? ==> i < r.value <= |s|
  {
    var a := DigitRun(s, i);
    if a == 0 || i + a >= |s| || s[i + a] != '.' then None
    else
      var b := DigitRun(s, i + a + 1);
      if b == 0 || i + a + 1 + b >= |s| || s[i + a + 1 + b] != '.' then None
      else
        var c := DigitRun(s, i + a + b + 2);
        if c == 0 then None else Some(i + a + b + 2 + c)
  }

  /** The matched text of a `\d+\.\d+\.\d+` match always makes a valid version. */
  lemma TripleParses(s: string, i: nat)
    requires i <= |s| && TripleEnd(s, i).Some?
    ensures FromString(s[i..TripleEnd(s, i).value]).Ok?
  {
    var a := DigitRun(s, i);
    var b := DigitRun(s, i + a + 1);
    var c := DigitRun(s, i + a + b + 2);
    var e := TripleEnd(s, i).value;
    var w := s[i..e];
    var q := a + 1 + b;
    Recombine(w, a, q);
    var x, y, z := w[..a], w[a + 1..q], w[q + 1..];
    forall k | 0 <= k < |x| ensures IsDigit(x[k]) { assert x[k] == s[i + k]; }
    forall k | 0 <= k < |y| ensures IsDigit(y[k]) { assert y[k] == s[i + a + 1 + k]; }
    forall k | 0 <= k < |z| ensures IsDigit(z[k]) { assert z[k] == s[i + q + 1 + k]; }
    FromStringOfDigits(x, y, z);
  }

  /**
    `Version.parse(raw, prefix)`: the first `\d+.\d+.\d+` right after a leading
    `"## " + prefix`; whatever follows the third number is ignored.
  */
  function Parse(raw: string, prefix: string): (r: Result<Version>)
    ensures r.Ok? <==> StartsWith(raw, VersionHeader + prefix) && TripleEnd(raw, |VersionHeader + prefix|).Some?
  {
    var head := VersionHeader + prefix;
    if !StartsWith(raw, head) then Err("no version header")
    else
      match TripleEnd(raw, |head|)
      case None => Err("no version header")
      case Some(e) => TripleParses(raw, |head|); FromString(raw[|head|..e])
  }

  /** Three runs of digits of lengths `a`, `b`, `c` at `i`, joined by dots and not followed by a digit, are exactly the match there. */
  lemma TripleEndOf(s: string, i: nat, a: nat, b: nat, c: nat)
    requires a > 0 && b > 0 && c > 0 && i + a + b + c + 2 <= |s|
    requires forall m :: i <= m < i + a ==> IsDigit(s[m])
    requires s[i + a] == '.'
    requires forall m :: i + a + 1 <= m < i + a + 1 + b ==> IsDigit(s[m])
    requires s[i + a + 1 + b] == '.'
    requires forall m :: i + a + b + 2 <= m < i + a + b + 2 + c ==> IsDigit(s[m])
    requires i + a + b + c + 2 == |s| || !IsDigit(s[i + a + b + c + 2])
    ensures TripleEnd(s, i) == Some(i + a + b + c + 2)
  {
    DigitRunOf(s, i, a);
    DigitRunOf(s, i + a + 1, b);
    DigitRunOf(s, i + a + b + 2, c);
  }

  /** A header followed by anything that does not continue the last number reads back its version. */
  lemma ParseIgnoresTail(v: Version, prefix: string, rest: string)
    requires rest == "" || !IsDigit(rest[0])
    ensures Parse(VersionHeader + prefix + v.VersionString() + rest, prefix) == Ok(v)
  {
    var head := VersionHeader + prefix;
    var a, b, c := NatToString(v.major), NatToString(v.minor), NatToString(v.patch);
    var t := v.VersionString();
    assert t == a + "." + b + "." + c;
    TripleAfter(head, a, b, c, rest);
    var raw := head + t + rest;
    assert raw[..|head|] == head;
    MiddleSlice(head, t, rest, 0, |t|);
    assert t[0..|t|] == t;
    FromStringVersionString(v);
  }

  /** Three digit strings joined by dots after a header, and not continued by a digit, are the match after the header. */
  lemma TripleAfter(head: string, a: string, b: string, c: string, rest: string)
    requires a != "" && b != "" && c != "" && AllDigits(a) && AllDigits(b) && AllDigits(c)
    requires rest == "" || !IsDigit(rest[0])
    ensures TripleEnd(head + (a + "." + b + "." + c) + rest, |head|) == Some(|head| + |a| + |b| + |c| + 2)
  {
    var t := a + "." + b + "." + c;
    var raw := head + t + rest;
    var i := |head|;
    forall m | i <= m < i + |a| ensures IsDigit(raw[m]) { assert raw[m] == a[m - i]; }
    forall m | i + |a| + 1 <= m < i + |a| + 1 + |b| ensures IsDigit(raw[m]) { assert raw[m] == b[m - i - |a| - 1]; }
    forall m | i + |a| + |b| + 2 <= m < i + |a| + |b| + 2 + |c| ensures IsDigit(raw[m]) { assert raw[m] == c[m - i - |a| - |b| - 2]; }
    assert raw[i + |a|] == '.' && raw[i + |a| + 1 + |b|] == '.';
    assert i + |t| < |raw| ==> raw[i + |t|] == rest[0];
    TripleEndOf(raw, i, |a|, |b|, |c|);
  }

  /** A text with dots at `p` and `q` is the three pieces around them joined by dots. */
  lemma Recombine(w: string, p: nat, q: nat)
    requires p < q < |w| && w[p] == '.' && w[q] == '.'
    ensures w == w[..p] + "." + w[p + 1..q] + "." + w[q + 1..]
  {
  }

  /** A slice of the middle piece of a concatenation. */
  lemma MiddleSlice(x: string, y: string, z: string, p: nat, q: nat)
    requires p <= q <= |y|
    ensures (x + y + z)[|x| + p..|x| + q] == y[p..q]
  {
  }

  /** Round trip: a rendered header parses back to its version, with or without a date. */
  lemma ParseToString(v: Version, prefix: string, date: Option<Date>)
    ensures Parse(v.ToString(VersionHeader + prefix, date), prefix) == Ok(v)
  {
    var rest := if date.Some? then " - " + FormatDate(date.value) else "";
    assert v.ToString(VersionHeader + prefix, date) == VersionHeader + prefix + v.VersionString() + rest;
    ParseIgnoresTail(v, prefix, rest);
  }
}
