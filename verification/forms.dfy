/** `SubjectForm.clean_days_of_week` from attendance/forms.py: text input is
    parsed as JSON, and when that fails it is split on commas, each piece
    trimmed and upper-cased. The JSON parser is a parameter of the model. */
module Forms {
  import opened Basics
  import opened Models

  /** Python's `str.isspace` for a single character (the whitespace `strip()` removes). */
  predicate IsSpace(c: char) {
    var n := c as int;
    (0x09 <= n <= 0x0D) || (0x1C <= n <= 0x20) || n == 0x85 || n == 0xA0 || n == 0x1680
    || (0x2000 <= n <= 0x200A) || n == 0x2028 || n == 0x2029 || n == 0x202F || n == 0x205F
    || n == 0x3000
  }

  /** No whitespace at either end. */
  predicate Trimmed(s: string) {
    |s| > 0 ==> !IsSpace(s[0]) && !IsSpace(s[|s| - 1])
  }

  /** The number of whitespace characters the text starts with. */
  function LeadingSpace(s: string): (n: nat)
    ensures n <= |s|
    ensures forall i :: 0 <= i < n ==> IsSpace(s[i])
    ensures n < |s| ==> !IsSpace(s[n])
  {
    if |s| > 0 && IsSpace(s[0]) then 1 + LeadingSpace(s[1..]) else 0
  }

  /** The number of whitespace characters the text ends with. */
  function TrailingSpace(s: string): (n: nat)
    ensures n <= |s|
    ensures forall i :: |s| - n <= i < |s| ==> IsSpace(s[i])
    ensures n < |s| ==> !IsSpace(s[|s| - n - 1])
  {
    if |s| > 0 && IsSpace(s[|s| - 1]) then 1 + TrailingSpace(s[..|s| - 1]) else 0
  }

  /** `s.lstrip()`: drops the leading whitespace and nothing else. */
  function StripLeft(s: string): (r: string)
    ensures |r| <= |s| && r == s[|s| - |r|..]
    ensures forall i :: 0 <= i < |s| - |r| ==> IsSpace(s[i])
    ensures |r| > 0 ==> !IsSpace(r[0])
    ensures |s| > 0 && !IsSpace(s[0]) ==> r == s
  {
    s[LeadingSpace(s)..]
  }

  /** `s.rstrip()`: drops the trailing whitespace and nothing else. */
  function StripRight(s: string): (r: string)
    ensures |r| <= |s| && r == s[..|r|]
    ensures forall i :: |r| <= i < |s| ==> IsSpace(s[i])
    ensures |r| > 0 ==> !IsSpace(r[|r| - 1])
    ensures |s| > 0 && !IsSpace(s[|s| - 1]) ==> r == s
  {
    s[..|s| - TrailingSpace(s)]
  }

  /** `str.strip()`: the infix left after dropping the whitespace at both
      ends. It starts after the leading whitespace, everything outside it is
      whitespace, and it has none at either end, so it is the longest such
      infix. */
  function Strip(s: string): (r: string)
    ensures var a := LeadingSpace(s);
            && a + |r| <= |s|
            && (forall k :: 0 <= k < |r| ==> r[k] == s[a + k])
            && (forall i :: 0 <= i < a ==> IsSpace(s[i]))
            && (forall i :: a + |r| <= i < |s| ==> IsSpace(s[i]))
    ensures Trimmed(r)
  {
    var a := LeadingSpace(s);
    var t := TrailingSpace(s[a..]);
    StripInfix(s, a, t);
    s[a..|s| - t]
  }

  /** Cutting the leading and then the trailing whitespace leaves an infix
      with only whitespace outside it and none at its ends. */
  lemma StripInfix(s: string, a: nat, t: nat)
    requires a <= |s| && a == LeadingSpace(s) && t == TrailingSpace(s[a..])
    ensures var r := s[a..|s| - t];
            && (forall i :: a + |r| <= i < |s| ==> IsSpace(s[i]))
            && Trimmed(r)
  {
    var l := s[a..];
    var r := s[a..|s| - t];
    forall i | a + |r| <= i < |s| ensures IsSpace(s[i]) {
      assert s[i] == l[i - a];
    }
    if |r| > 0 {
      assert r[0] == s[a];
      assert r[|r| - 1] == l[|l| - t - 1];
    }
  }

  /** `strip()` leaves text without whitespace at its ends as it is. */
  lemma StripTrimmed(s: string)
    requires Trimmed(s)
    ensures Strip(s) == s
  {
    if |s| > 0 {
      assert LeadingSpace(s) == 0 && s[0..] == s;
      assert TrailingSpace(s) == 0;
    }
  }

  /** `strip()` adds no character: every character it keeps comes from the text. */
  lemma StripKeepsChars(s: string)
    ensures forall c :: c in Strip(s) ==> c in s
  {
    var r := Strip(s);
    var a := LeadingSpace(s);
    forall c | c in r ensures c in s {
      var k :| 0 <= k < |r| && r[k] == c;
      assert s[a + k] == c;
    }
  }

  /** Upper-casing of one character (ASCII letters). */
  function UpperChar(c: char): char {
    if 'a' <= c <= 'z' then (c as int - 'a' as int + 'A' as int) as char else c
  }

  function Upper(s: string): (r: string)
    ensures |r| == |s|
    ensures forall i :: 0 <= i < |s| ==> r[i] == UpperChar(s[i])
  {
    seq(|s|, i requires 0 <= i < |s| => UpperChar(s[i]))
  }

  predicate NoLowercase(s: string) {
    forall i :: 0 <= i < |s| ==> !('a' <= s[i] <= 'z')
  }

  function Occurrences(s: string, c: char): nat {
    if |s| == 0 then 0 else (if s[0] == c then 1 else 0) + Occurrences(s[1..], c)
  }

  /** `s.split(sep)` for a one-character separator. */
  function Split(s: string, sep: char): (parts: seq<string>)
    ensures |parts| == Occurrences(s, sep) + 1
    ensures forall i :: 0 <= i < |parts| ==> sep !in parts[i]
  {
    if |s| == 0 then [""]
    else
      var rest := Split(s[1..], sep);
      if s[0] == sep then [""] + rest
      else [[s[0]] + rest[0]] + rest[1..]
  }

  /** `sep.join(parts)`. */
  function Join(parts: seq<string>, sep: char): string
    requires |parts| >= 1
  {
    if |parts| == 1 then parts[0] else parts[0] + [sep] + Join(parts[1..], sep)
  }

  /** One list element of the fallback: `d.strip().upper()`. */
  function Normalize(d: string): string {
    Upper(Strip(d))
  }

  /** The fallback branch: `[d.strip().upper() for d in data.split(",")]`. */
  function FallbackDays(s: string): (days: seq<string>)
    ensures |days| == |Split(s, ',')| == Occurrences(s, ',') + 1
    ensures forall i :: 0 <= i < |days| ==> days[i] == Normalize(Split(s, ',')[i])
    ensures forall i :: 0 <= i < |days| ==> Trimmed(days[i]) && NoLowercase(days[i]) && ',' !in days[i]
  {
    var parts := Split(s, ',');
    var days := seq(|parts|, i requires 0 <= i < |parts| => Normalize(parts[i]));
    assert forall i :: 0 <= i < |days| ==> days[i] == Normalize(parts[i]);
    forall i | 0 <= i < |days|
      ensures Trimmed(days[i]) && NoLowercase(days[i]) && ',' !in days[i]
    {
      NormalizeShape(parts[i]);
    }
    days
  }

  /** `clean_days_of_week`: `loads` stands for `json.loads`, `None` for a parse failure. */
  function CleanDaysOfWeek(data: DaysValue, loads: string -> Option<DaysValue>): (r: DaysValue)
    ensures data.Items? ==> r == data
    ensures data.Text? && loads(data.text).Some? ==> r == loads(data.text).value
    ensures data.Text? && loads(data.text).None? ==> r == Items(FallbackDays(data.text))
  {
    match data
    case Items(_) => data
    case Text(s) =>
      match loads(s)
      case Some(v) => v
      case None => Items(FallbackDays(s))
  }

  // ---------------------------------------------------------------- lemmas

  /** Upper-casing one character keeps whitespace and commas as they are and
      leaves no lower-case letter. */
  lemma UpperCharFacts(c: char)
    ensures IsSpace(UpperChar(c)) == IsSpace(c)
    ensures UpperChar(c) == ',' <==> c == ','
    ensures !('a' <= UpperChar(c) <= 'z')
  {
    if 'a' <= c <= 'z' {
      assert 'A' <= UpperChar(c) <= 'Z';
    }
  }

  lemma NormalizeShape(d: string)
    ensures Trimmed(Normalize(d)) && NoLowercase(Normalize(d))
    ensures ',' !in d ==> ',' !in Normalize(d)
  {
    var t := Strip(d);
    StripKeepsChars(d);
    UpperShape(t);
    if ',' !in d {
      assert ',' !in t;
    }
  }

  /** Upper-casing keeps a trimmed string trimmed and comma-free text
      comma-free, and leaves no lower-case letter. */
  lemma UpperShape(t: string)
    ensures Trimmed(t) ==> Trimmed(Upper(t))
    ensures NoLowercase(Upper(t))
    ensures ',' !in t ==> ',' !in Upper(t)
  {
    var u := Upper(t);
    if |u| > 0 {
      UpperCharFacts(t[0]);
      UpperCharFacts(t[|t| - 1]);
    }
    forall i | 0 <= i < |u| ensures !('a' <= u[i] <= 'z') && (u[i] == ',' <==> t[i] == ',') {
      UpperCharFacts(t[i]);
    }
  }

  lemma UpperIdempotent(s: string)
    ensures Upper(Upper(s)) == Upper(s)
  {
  }

  /** Normalizing an already normalized element changes nothing. */
  lemma NormalizeIdempotent(d: string)
    ensures Normalize(Normalize(d)) == Normalize(d)
  {
    NormalizeShape(d);
    var n := Normalize(d);
    StripTrimmed(n);
    UpperIdempotent(Strip(d));
  }

  /** A piece without the separator splits into itself. */
  lemma {:induction false} SplitSingle(a: string, sep: char)
    requires sep !in a
    ensures Split(a, sep) == [a]
  {
    if |a| > 0 {
      SplitSingle(a[1..], sep);
      assert [a[0]] + a[1..] == a;
    }
  }

  /** Splitting `a + sep + t` yields `a` followed by the pieces of `t`. */
  lemma {:induction false} SplitPrefix(a: string, t: string, sep: char)
    requires sep !in a
    ensures Split(a + [sep] + t, sep) == [a] + Split(t, sep)
  {
    if |a| == 0 {
      assert a + [sep] + t == [sep] + t;
      assert ([sep] + t)[1..] == t;
    } else {
      var s := a + [sep] + t;
      assert s[1..] == a[1..] + [sep] + t;
      SplitPrefix(a[1..], t, sep);
      assert [a[0]] + a[1..] == a;
    }
  }

  /** Joining pieces that do not contain the separator and splitting again
      gives the pieces back. */
  lemma {:induction false} SplitJoin(parts: seq<string>, sep: char)
    requires |parts| >= 1
    requires forall i :: 0 <= i < |parts| ==> sep !in parts[i]
    ensures Split(Join(parts, sep), sep) == parts
  {
    if |parts| == 1 {
      SplitSingle(parts[0], sep);
    } else {
      SplitJoin(parts[1..], sep);
      SplitPrefix(parts[0], Join(parts[1..], sep), sep);
      assert [parts[0]] + parts[1..] == parts;
    }
  }

  /** Joining the pieces of a split with the separator gives the text back:
      together with `Split`'s contract (no piece holds the separator) this
      pins the pieces down. */
  lemma {:induction false} JoinSplit(s: string, sep: char)
    ensures Join(Split(s, sep), sep) == s
  {
    if |s| > 0 {
      JoinSplit(s[1..], sep);
      assert s == [s[0]] + s[1..];
    }
  }

  /** Re-joining the fallback's output with "," and parsing it again gives
      the same list. */
  lemma FallbackIdempotent(s: string)
    ensures FallbackDays(Join(FallbackDays(s), ',')) == FallbackDays(s)
  {
    var days := FallbackDays(s);
    SplitJoin(days, ',');
    NormalizeEach(Split(s, ','), days, FallbackDays(Join(days, ',')));
  }

  /** Normalizing a list of normalized elements changes nothing. */
  lemma NormalizeEach(parts: seq<string>, days: seq<string>, again: seq<string>)
    requires |days| == |parts| == |again|
    requires forall i :: 0 <= i < |days| ==> days[i] == Normalize(parts[i])
    requires forall i :: 0 <= i < |days| ==> again[i] == Normalize(days[i])
    ensures again == days
  {
    forall i | 0 <= i < |days| ensures again[i] == days[i] {
      NormalizeIdempotent(parts[i]);
    }
  }


  /** Text with one comma falls back to its two normalized halves. */
  lemma FallbackOfTwo(a: string, b: string)
    requires ',' !in a && ',' !in b
    ensures FallbackDays(a + [','] + b) == [Normalize(a), Normalize(b)]
  {
    SplitOfTwo(a, b);
    FallbackOfParts(a + [','] + b, a, b);
  }

  lemma SplitOfTwo(a: string, b: string)
    requires ',' !in a && ',' !in b
    ensures Split(a + [','] + b, ',') == [a, b]
  {
    SplitPrefix(a, b, ',');
    SplitSingle(b, ',');
  }

  /** Text that splits into two pieces falls back to the two normalized pieces. */
  lemma FallbackOfParts(t: string, a: string, b: string)
    requires Split(t, ',') == [a, b]
    ensures FallbackDays(t) == [Normalize(a), Normalize(b)]
  {
    MapOfTwo(FallbackDays(t), Split(t, ','), Normalize, a, b);
  }

  /** A list that maps `f` over the pair `[a, b]` is `[f(a), f(b)]`. */
  lemma MapOfTwo<T, U>(ys: seq<U>, xs: seq<T>, f: T -> U, a: T, b: T)
    requires xs == [a, b] && |ys| == |xs|
    requires forall i :: 0 <= i < |ys| ==> ys[i] == f(xs[i])
    ensures ys == [f(a), f(b)]
  {
  }


  /** The fallback turns "mon, wed" into the schedule ["MON", "WED"]. */
  lemma FallbackExample(s: string)
    requires s == "mon, wed"
    ensures FallbackDays(s) == ["MON", "WED"]
  {
    var a, b := "mon", " wed";
    assert s == a + [','] + b;
    FallbackOfTwo(a, b);
    NormalizeMon();
    NormalizeWed();
  }

  lemma NormalizeMon()
    ensures Normalize("mon") == "MON"
  {
    StripMon();
    UpperMon();
  }

  lemma StripMon()
    ensures Strip("mon") == "mon"
  {
    assert !IsSpace('m') && !IsSpace('n');
  }

  lemma UpperMon()
    ensures Upper("mon") == "MON"
  {
    var u := Upper("mon");
    assert u[0] == 'M' && u[1] == 'O' && u[2] == 'N';
  }

  lemma NormalizeWed()
    ensures Normalize(" wed") == "WED"
  {
    StripWed();
    UpperWed();
  }

  lemma StripWed()
    ensures Strip(" wed") == "wed"
  {
    assert IsSpace(' ') && !IsSpace('w') && !IsSpace('d');
    assert " wed"[1..] == "wed";
    assert StripLeft(" wed") == "wed";
  }

  lemma UpperWed()
    ensures Upper("wed") == "WED"
  {
    var u := Upper("wed");
    assert u[0] == 'W' && u[1] == 'E' && u[2] == 'D';
  }
}
