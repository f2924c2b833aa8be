/** The collection's string form: "[" + the elements' own string forms joined
    by ", " + "]", and its inverse for element strings that cannot be confused
    with the separator. */
module Rendering {

  const Separator: string := ", "

  /** The parts laid end to end with `sep` between consecutive parts and no
      separator after the last. */
  function Join(parts: seq<string>, sep: string): string
    decreases |parts|
  {
    if |parts| == 0 then ""
    else if |parts| == 1 then parts[0]
    else parts[0] + sep + Join(parts[1..], sep)
  }

  /** The string form of each element, in order. */
  function Strings<T>(xs: seq<T>, show: T -> string): (r: seq<string>)
    ensures |r| == |xs|
    ensures forall j :: 0 <= j < |xs| ==> r[j] == show(xs[j])
  {
    seq(|xs|, j requires 0 <= j < |xs| => show(xs[j]))
  }

  /** The collection's ToString over its live elements. */
  function Render<T>(xs: seq<T>, show: T -> string): string
  {
    "[" + Join(Strings(xs, show), Separator) + "]"
  }

  /** Joining two non-empty lists of parts puts exactly one separator between
      them. */
  lemma {:induction false} JoinAppend(p: seq<string>, q: seq<string>, sep: string)
    requires |p| > 0 && |q| > 0
    ensures Join(p + q, sep) == Join(p, sep) + sep + Join(q, sep)
    decreases |p|
  {
    if |p| == 1 {
      assert p + q == [p[0]] + q;
      assert (p + q)[1..] == q;
    } else {
      assert (p + q)[1..] == p[1..] + q;
      JoinAppend(p[1..], q, sep);
    }
  }

  /** Rendering a concatenation of two non-empty sequences joins their parts
      with one separator between them. */
  lemma RenderConcat<T>(xs: seq<T>, ys: seq<T>, show: T -> string)
    requires |xs| > 0 && |ys| > 0
    ensures Render(xs + ys, show)
         == "[" + Join(Strings(xs, show), Separator) + Separator + Join(Strings(ys, show), Separator) + "]"
  {
    assert Strings(xs + ys, show) == Strings(xs, show) + Strings(ys, show);
    JoinAppend(Strings(xs, show), Strings(ys, show), Separator);
  }

  /** The rendering is "[]" exactly for the empty collection and for a single
      element whose string form is empty. */
  lemma RenderEmptyIff<T>(xs: seq<T>, show: T -> string)
    ensures Render(xs, show) == "[]" <==> xs == [] || (|xs| == 1 && show(xs[0]) == "")
  {
    var parts := Strings(xs, show);
    if |xs| >= 2 {
      assert |Join(parts, Separator)| >= 2;
      assert |Render(xs, show)| >= 4;
    } else if |xs| == 1 {
      assert Join(parts, Separator) == show(xs[0]);
    }
  }

  /** Appending one element to a non-empty collection extends the rendering
      by ", " and the element's string form just before the closing bracket;
      there is no trailing separator. */
  lemma RenderAppend<T>(xs: seq<T>, x: T, show: T -> string)
    requires |xs| > 0
    ensures Render(xs + [x], show)
         == "[" + Join(Strings(xs, show), Separator) + Separator + show(x) + "]"
  {
    assert Strings(xs + [x], show) == Strings(xs, show) + [show(x)];
    JoinAppend(Strings(xs, show), [show(x)], Separator);
  }

  // ---------------------------------------------------------------------
  // Decimal rendering of integers (Int32.ToString in the invariant culture).

  /** The decimal digit character for 0 <= d < 10. */
  function DigitChar(d: int): (c: char)
    requires 0 <= d < 10
    ensures '0' <= c <= '9'
    ensures c as int - '0' as int == d
  {
    ('0' as int + d) as char
  }

  /** The number a string of decimal digits spells, most significant first. */
  function DigitsValue(s: string): int
    decreases |s|
  {
    if |s| == 0 then 0
    else DigitsValue(s[..|s| - 1]) * 10 + (s[|s| - 1] as int - '0' as int)
  }

  /** Decimal digits of `n`, with a leading '-' when it is negative. */
  function Decimal(n: int): (r: string)
    ensures |r| > 0
    ensures n < 0 ==> r[0] == '-' && |r| > 1
    ensures n >= 0 ==> '0' <= r[0] <= '9'
    ensures forall k :: 1 <= k < |r| ==> '0' <= r[k] <= '9'
    decreases if n < 0 then 1 - n else n
  {
    if n < 0 then "-" + Decimal(-n)
    else if n < 10 then [DigitChar(n)]
    else Decimal(n / 10) + [DigitChar(n % 10)]
  }

  /** The digits of `Decimal(n)` spell |n| with no leading zero ("0" for
      zero), so the decimal form is the one canonical form of `n`. */
  lemma {:induction false} DecimalSpells(n: int)
    ensures n >= 0 ==> DigitsValue(Decimal(n)) == n
    ensures n < 0 ==> DigitsValue(Decimal(n)[1..]) == -n && Decimal(n)[1] != '0'
    ensures n > 0 ==> Decimal(n)[0] != '0'
    ensures n == 0 ==> Decimal(n) == "0"
    decreases if n < 0 then 1 - n else n
  {
    var r := Decimal(n);
    if n < 0 {
      DecimalSpells(-n);
      assert r[1..] == Decimal(-n);
    } else if n >= 10 {
      DecimalSpells(n / 10);
      var d := Decimal(n / 10);
      assert r == d + [DigitChar(n % 10)];
      assert r[..|r| - 1] == d;
    }
  }

  // ---------------------------------------------------------------------
  // Reading a rendering back.

  /** Cuts `s` at every occurrence of `sep`, scanning from the left. */
  function Split(s: string, sep: string): (r: seq<string>)
    requires |sep| > 0
    ensures |r| > 0
    decreases |s|
  {
    if |s| < |sep| then [s]
    else if s[..|sep|] == sep then [""] + Split(s[|sep|..], sep)
    else
      var rest := Split(s[1..], sep);
      [[s[0]] + rest[0]] + rest[1..]
  }

  /** `c` does not occur in `w`. */
  predicate Avoids(w: string, c: char)
  {
    forall k :: 0 <= k < |w| ==> w[k] != c
  }

  datatype Option<+T> = None | Some(value: T)

  /** The element strings of a rendering, or None when `s` is not bracketed. */
  function Parse(s: string): (r: Option<seq<string>>)
    ensures r.Some? ==> |s| >= 2 && s[0] == '[' && s[|s| - 1] == ']'
  {
    if |s| < 2 || s[0] != '[' || s[|s| - 1] != ']' then None
    else if |s| == 2 then Some([])
    else Some(Split(s[1..|s| - 1], Separator))
  }

  lemma {:induction false} SplitWhole(w: string, sep: string)
    requires |sep| > 0 && Avoids(w, sep[0])
    ensures Split(w, sep) == [w]
    decreases |w|
  {
    if |w| >= |sep| {
      assert w[..|sep|][0] != sep[0];
      SplitWhole(w[1..], sep);
      assert [w[0]] + w[1..] == w;
    }
  }

  lemma {:induction false} SplitAtFirst(w: string, t: string, sep: string)
    requires |sep| > 0 && Avoids(w, sep[0])
    ensures Split(w + sep + t, sep) == [w] + Split(t, sep)
    decreases |w|
  {
    var s := w + sep + t;
    if |w| == 0 {
      assert s[..|sep|] == sep;
      assert s[|sep|..] == t;
    } else {
      assert s[..|sep|][0] == w[0];
      assert s[1..] == w[1..] + sep + t;
      SplitAtFirst(w[1..], t, sep);
      assert [w[0]] + w[1..] == w;
    }
  }

  /** Splitting a join at its separator recovers the parts, provided no part
      contains the separator's first character. */
  lemma {:induction false} SplitJoin(parts: seq<string>, sep: string)
    requires |parts| > 0 && |sep| > 0
    requires forall j :: 0 <= j < |parts| ==> Avoids(parts[j], sep[0])
    ensures Split(Join(parts, sep), sep) == parts
    decreases |parts|
  {
    if |parts| == 1 {
      SplitWhole(parts[0], sep);
    } else {
      SplitAtFirst(parts[0], Join(parts[1..], sep), sep);
      SplitJoin(parts[1..], sep);
      assert [parts[0]] + parts[1..] == parts;
    }
  }

  /** Parsing a rendering gives back the elements' string forms, provided each
      is non-empty and free of commas. */
  lemma ParseRender<T>(xs: seq<T>, show: T -> string)
    requires forall j :: 0 <= j < |xs| ==> show(xs[j]) != "" && Avoids(show(xs[j]), ',')
    ensures Parse(Render(xs, show)) == Some(Strings(xs, show))
  {
    var parts := Strings(xs, show);
    var s := Render(xs, show);
    if |xs| == 0 {
      assert s == "[]";
    } else {
      assert s[1..|s| - 1] == Join(parts, Separator);
      assert |s| > 2;
      SplitJoin(parts, Separator);
    }
  }

  /** Integer collections render unambiguously. */
  lemma ParseRenderIntegers(xs: seq<int>)
    ensures Parse(Render(xs, Decimal)) == Some(Strings(xs, Decimal))
  {
    forall j | 0 <= j < |xs| ensures Decimal(xs[j]) != "" && Avoids(Decimal(xs[j]), ',') {
    }
    ParseRender(xs, Decimal);
  }
}
