/** Thousand separators for the display: `format` puts a space between groups of three integer
    digits, counted from the right, and `unformat` takes every space out again. */
module DisplayFormatter {
  import opened Numerals

  /** The texts `format` hands back as they are. */
  predicate Verbatim(number: string) {
    number == "" || number == "0" || number == "Error" || number == "Undefined"
  }

  /** String.split("\\.", 2): the text before the first point and, when there is a point, the
      text after it. */
  function SplitAtPoint(number: string): (parts: seq<string>)
    ensures 1 <= |parts| <= 2 && '.' !in parts[0]
    ensures |parts| == 1 <==> '.' !in number
    ensures |parts| == 1 ==> parts[0] == number
    ensures |parts| == 2 ==> number == parts[0] + "." + parts[1]
  {
    var i := IndexOfDot(number);
    IndexOfDotSpec(number);
    if i == |number| then [number] else [number[..i], number[i + 1..]]
  }

  /** The reference grouping: the last three characters are a group, and what comes before them
      is grouped in the same way, a space between groups. */
  function Grouped(d: string): string
    decreases |d|
  {
    if |d| <= 3 then d else Grouped(d[..|d| - 3]) + " " + d[|d| - 3..]
  }

  /** What the loop of `format` has built after the first |p| characters of an integer part of
      length n: character i is preceded by a space when i > 0 and (n - i) % 3 == 0. */
  function Spaced(p: string, n: int): string {
    if p == [] then []
    else
      var i := |p| - 1;
      Spaced(p[..i], n) + (if i > 0 && (n - i) % 3 == 0 then " " else "") + [p[i]]
  }

  /** What `format` makes of a number's text: an optional '-' in front, the grouped integer part,
      and the point and everything after it unchanged. */
  function Formatted(number: string): string {
    if Verbatim(number) then number
    else
      var parts := SplitAtPoint(number);
      var negative := |parts[0]| > 0 && parts[0][0] == '-';
      var intPart := if negative then parts[0][1..] else parts[0];
      Assembled(negative, Grouped(intPart), parts)
  }

  /** A sign, a grouped integer part and, when there is one, the point and the fraction. */
  function Assembled(negative: bool, grouped: string, parts: seq<string>): string
    requires |parts| >= 1
  {
    (if negative then "-" else "") + grouped + (if |parts| == 2 then "." + parts[1] else "")
  }

  /** Adds thousand separators. */
  method Format(number: string) returns (r: string)
    ensures Verbatim(number) ==> r == number
    ensures r == Formatted(number)
  {
    if number == "" || number == "0" || number == "Error" || number == "Undefined" {
      return number;
    }
    var parts := SplitAtPoint(number);
    var intPart := parts[0];
    var negative := |intPart| > 0 && intPart[0] == '-';
    if negative {
      intPart := intPart[1..];
    }
    assert Formatted(number) == Assembled(negative, Grouped(intPart), parts);
    var formatted := GroupDigits(intPart);
    if negative {
      formatted := "-" + formatted;
    }
    if |parts| == 2 {
      formatted := formatted + "." + parts[1];
    }
    r := formatted;
    assert r == Assembled(negative, Grouped(intPart), parts);
  }

  /** The loop of `format`: a space before every character whose distance from the end is a
      positive multiple of three. */
  method GroupDigits(intPart: string) returns (formatted: string)
    ensures formatted == Grouped(intPart)
  {
    formatted := "";
    for i := 0 to |intPart|
      invariant formatted == Spaced(intPart[..i], |intPart|)
    {
      if i > 0 && (|intPart| - i) % 3 == 0 {
        formatted := formatted + " ";
      }
      formatted := formatted + [intPart[i]];
      assert intPart[..i + 1][..i] == intPart[..i];
    }
    assert intPart[..|intPart|] == intPart;
    SpacedIsGrouped(intPart);
  }

  /** String.replace(" ", ""): every space removed, every other character kept, in order. */
  function Unformat(s: string): string {
    if s == [] then []
    else (if s[0] == ' ' then [] else [s[0]]) + Unformat(s[1..])
  }

  /** Text with no space in it. */
  predicate SpaceFree(s: string) {
    s == [] || (s[0] != ' ' && SpaceFree(s[1..]))
  }

  // ---------------------------------------------------------------------------------------------
  // The loop builds the reference grouping

  /** Shifting the length by a group of three changes no space among the first |p| characters. */
  lemma {:induction false} SpacedShift(p: string, n: int)
    requires |p| <= n - 3
    ensures Spaced(p, n) == Spaced(p, n - 3)
  {
    if p != [] {
      var i := |p| - 1;
      SpacedShift(p[..i], n);
      assert (n - i) % 3 == (n - 3 - i) % 3;
    }
  }

  /** An integer part of at most three characters gets no space. */
  lemma {:induction false} SpacedShort(p: string, n: int)
    requires |p| <= n <= 3
    ensures Spaced(p, n) == p
  {
    if p != [] {
      SpacedShort(p[..|p| - 1], n);
      assert p[..|p| - 1] + [p[|p| - 1]] == p;
    }
  }

  /** The last three characters of a longer integer part: a space before the first of them. */
  lemma {:induction false} SpacedLastGroup(d: string)
    requires |d| > 3
    ensures Spaced(d, |d|) == Spaced(d[..|d| - 3], |d|) + " " + d[|d| - 3..]
  {
    var n := |d|;
    assert d[..n - 1][..n - 2] == d[..n - 2];
    assert d[..n - 2][..n - 3] == d[..n - 3];
    assert Spaced(d[..n - 2], n) == Spaced(d[..n - 3], n) + " " + [d[n - 3]];
    assert Spaced(d[..n - 1], n) == Spaced(d[..n - 2], n) + [d[n - 2]];
    assert Spaced(d, n) == Spaced(d[..n - 1], n) + [d[n - 1]];
    assert d[n - 3..] == [d[n - 3], d[n - 2], d[n - 1]];
  }

  /** The loop of `format` builds exactly the reference grouping. */
  lemma {:induction false} SpacedIsGrouped(d: string)
    ensures Spaced(d, |d|) == Grouped(d)
    decreases |d|
  {
    if |d| <= 3 {
      SpacedShort(d, |d|);
    } else {
      var q := d[..|d| - 3];
      SpacedLastGroup(d);
      SpacedShift(q, |d|);
      SpacedIsGrouped(q);
    }
  }

  // ---------------------------------------------------------------------------------------------
  // Space-free text

  /** Text is space-free exactly when both of its parts are. */
  lemma {:induction false} SpaceFreeConcat(a: string, b: string)
    ensures SpaceFree(a + b) <==> SpaceFree(a) && SpaceFree(b)
  {
    if a != [] {
      assert (a + b)[0] == a[0];
      assert (a + b)[1..] == a[1..] + b;
      SpaceFreeConcat(a[1..], b);
    } else {
      assert a + b == b;
    }
  }

  /** No character of space-free text is a space. */
  lemma {:induction false} SpaceFreeAt(s: string, i: nat)
    requires SpaceFree(s) && i < |s|
    ensures s[i] != ' '
  {
    if i > 0 {
      SpaceFreeAt(s[1..], i - 1);
    }
  }

  /** The first |d| - 3 characters and the last three of space-free text are space-free. */
  lemma LastGroupSpaceFree(d: string)
    requires SpaceFree(d) && |d| > 3
    ensures SpaceFree(d[..|d| - 3]) && SpaceFree(d[|d| - 3..])
  {
    assert d[..|d| - 3] + d[|d| - 3..] == d;
    SpaceFreeConcat(d[..|d| - 3], d[|d| - 3..]);
  }

  // ---------------------------------------------------------------------------------------------
  // Where the spaces stand

  /** A grouping of n > 0 characters is n + (n - 1) / 3 long: one space per full group after the
      first. */
  lemma {:induction false} GroupedLength(d: string)
    ensures |d| > 0 ==> |Grouped(d)| == |d| + (|d| - 1) / 3
    decreases |d|
  {
    if |d| > 3 {
      GroupedLength(d[..|d| - 3]);
    }
  }

  /** In the grouping of space-free text, character k is a space exactly when k > 0 and its
      distance from the end is a multiple of four: every group after the first has three
      characters, and the first has one to three. */
  lemma {:induction false} GroupedSpaceAt(d: string, k: nat)
    requires SpaceFree(d) && k < |Grouped(d)|
    ensures Grouped(d)[k] == ' ' <==> k > 0 && (|Grouped(d)| - k) % 4 == 0
    decreases |d|, 1
  {
    if |d| <= 3 {
      SpaceFreeAt(d, k);
    } else {
      LongGroupedSpaceAt(d, k);
    }
  }

  /** The same for more than three characters: the grouping of all but the last three, a space,
      and the last three. */
  lemma {:induction false} LongGroupedSpaceAt(d: string, k: nat)
    requires SpaceFree(d) && |d| > 3 && k < |Grouped(d)|
    ensures Grouped(d)[k] == ' ' <==> k > 0 && (|Grouped(d)| - k) % 4 == 0
    decreases |d|, 0
  {
    var q := d[..|d| - 3];
    var tail := d[|d| - 3..];
    var g := Grouped(q);
    LastGroupSpaceFree(d);
    GroupedLength(q);
    assert Grouped(d) == g + " " + tail;
    if k < |g| {
      GroupedSpaceAt(q, k);
      JoinedHead(g, tail, k);
    } else {
      JoinedTail(g, tail, k);
    }
  }

  /** Before the joining space, a group joined to a last group of three reads as the group, and
      the distance from the end grows by four. */
  lemma JoinedHead(g: string, tail: string, k: nat)
    requires |tail| == 3 && k < |g|
    ensures (g + " " + tail)[k] == g[k]
    ensures (|g + " " + tail| - k) % 4 == (|g| - k) % 4
  {
  }

  /** From the joining space on, only the joining space is a space, and it stands four places
      from the end. */
  lemma JoinedTail(g: string, tail: string, k: nat)
    requires |tail| == 3 && SpaceFree(tail) && 0 < |g| <= k < |g| + 4
    ensures (g + " " + tail)[k] == ' ' <==> k > 0 && (|g + " " + tail| - k) % 4 == 0
  {
    if k > |g| {
      assert (g + " " + tail)[k] == tail[k - |g| - 1];
      SpaceFreeAt(tail, k - |g| - 1);
    }
  }

  /** The spaces of a grouping of space-free text, all at once. */
  lemma GroupedSpaces(d: string)
    requires SpaceFree(d)
    ensures |d| > 0 ==> |Grouped(d)| == |d| + (|d| - 1) / 3
    ensures var r := Grouped(d);
      forall k :: 0 <= k < |r| ==> (r[k] == ' ' <==> k > 0 && (|r| - k) % 4 == 0)
  {
    GroupedLength(d);
    forall k | 0 <= k < |Grouped(d)|
      ensures Grouped(d)[k] == ' ' <==> k > 0 && (|Grouped(d)| - k) % 4 == 0
    {
      GroupedSpaceAt(d, k);
    }
  }

  // ---------------------------------------------------------------------------------------------
  // `unformat` undoes `format`

  /** Taking the spaces out of a concatenation takes them out of each part. */
  lemma {:induction false} UnformatConcat(a: string, b: string)
    ensures Unformat(a + b) == Unformat(a) + Unformat(b)
  {
    if a != [] {
      assert (a + b)[0] == a[0];
      assert (a + b)[1..] == a[1..] + b;
      UnformatConcat(a[1..], b);
    } else {
      assert a + b == b;
    }
  }

  /** Text without spaces is left as it is. */
  lemma {:induction false} UnformatSpaceFree(s: string)
    requires SpaceFree(s)
    ensures Unformat(s) == s
  {
    if s != [] {
      UnformatSpaceFree(s[1..]);
      assert [s[0]] + s[1..] == s;
    }
  }

  /** `unformat` removes the spaces and nothing else: every other character occurs as often as
      before, and no space is left. */
  lemma {:induction false} UnformatKeepsOthers(s: string)
    ensures multiset(Unformat(s)) == multiset(s)[' ' := 0]
  {
    if s != [] {
      UnformatKeepsOthers(s[1..]);
      assert s == [s[0]] + s[1..];
    }
  }

  /** No space is left after `unformat`. */
  lemma {:induction false} UnformatRemovesSpaces(s: string)
    ensures SpaceFree(Unformat(s))
  {
    if s != [] {
      UnformatRemovesSpaces(s[1..]);
      var head := if s[0] == ' ' then [] else [s[0]];
      SpaceFreeConcat(head, Unformat(s[1..]));
      assert SpaceFree(head);
    }
  }

  /** Taking the spaces out of a grouping gives back the grouped text. */
  lemma {:induction false} UnformatGrouped(d: string)
    requires SpaceFree(d)
    ensures Unformat(Grouped(d)) == d
    decreases |d|
  {
    if |d| <= 3 {
      UnformatSpaceFree(d);
    } else {
      var q := d[..|d| - 3];
      var tail := d[|d| - 3..];
      assert Unformat(Grouped(d)) == Unformat(Grouped(q)) + Unformat(tail) by {
        UnformatSpaced(Grouped(q), tail);
      }
      LastGroupSpaceFree(d);
      UnformatGrouped(q);
      UnformatSpaceFree(tail);
      assert q + tail == d;
    }
  }

  /** Taking the spaces out of two texts joined by a space joins what is left of them. */
  lemma {:induction false} UnformatSpaced(a: string, b: string)
    ensures Unformat(a + " " + b) == Unformat(a) + Unformat(b)
  {
    var sb := " " + b;
    assert sb[0] == ' ' && sb[1..] == b;
    assert Unformat(sb) == Unformat(b);
    UnformatConcat(a, sb);
    assert a + " " + b == a + sb;
  }

  /** Taking the spaces out of a sign, a grouping and a fraction gives back the ungrouped text. */
  lemma {:induction false} UnformatAssembled(sign: string, intPart: string, rest: string)
    requires SpaceFree(sign) && SpaceFree(intPart) && SpaceFree(rest)
    ensures Unformat(sign + (Grouped(intPart) + rest)) == sign + (intPart + rest)
  {
    var g := Grouped(intPart);
    UnformatGrouped(intPart);
    UnformatSpaceFree(sign);
    UnformatSpaceFree(rest);
    UnformatConcat(sign, g + rest);
    UnformatConcat(g, rest);
  }

  /** `format` only inserts spaces: `unformat` undoes it on any text without spaces. */
  lemma {:induction false} FormatRoundTrip(number: string)
    requires SpaceFree(number)
    ensures Unformat(Formatted(number)) == number
  {
    if Verbatim(number) {
      UnformatSpaceFree(number);
    } else {
      var parts := SplitAtPoint(number);
      var negative := |parts[0]| > 0 && parts[0][0] == '-';
      var intPart := if negative then parts[0][1..] else parts[0];
      GroupedRoundTrip(number, parts, negative, intPart);
    }
  }

  /** The round trip once `format` has split the text into sign, integer part and fraction. */
  lemma {:induction false} GroupedRoundTrip(number: string, parts: seq<string>, negative: bool, intPart: string)
    requires SpaceFree(number) && 1 <= |parts| <= 2
    requires |parts| == 1 ==> parts[0] == number
    requires |parts| == 2 ==> number == parts[0] + "." + parts[1]
    requires negative <==> |parts[0]| > 0 && parts[0][0] == '-'
    requires intPart == if negative then parts[0][1..] else parts[0]
    ensures Unformat(Assembled(negative, Grouped(intPart), parts)) == number
  {
    var sign := if negative then "-" else "";
    var rest := if |parts| == 2 then "." + parts[1] else "";
    assert parts[0] == sign + intPart;
    assert number == sign + (intPart + rest);
    SpaceFreeConcat(sign, intPart + rest);
    SpaceFreeConcat(intPart, rest);
    assert Assembled(negative, Grouped(intPart), parts) == sign + (Grouped(intPart) + rest);
    UnformatAssembled(sign, intPart, rest);
  }

  /** Everything from the first point on is copied unchanged to the end, and a leading '-' stays
      in front, outside the groups. */
  lemma {:induction false} FormatKeepsSignAndFraction(number: string)
    requires !Verbatim(number)
    ensures var f := Formatted(number); var i := IndexOfDot(number);
      |f| >= |number| - i && f[|f| - (|number| - i)..] == number[i..]
    ensures |number| > 0 && number[0] == '-' ==> Formatted(number)[0] == '-'
  {
    IndexOfDotSpec(number);
    var parts := SplitAtPoint(number);
    if |parts| == 2 {
      assert number[IndexOfDot(number)..] == "." + parts[1];
    } else {
      assert number[IndexOfDot(number)..] == [];
    }
    if |number| > 0 && number[0] == '-' {
      assert parts[0][0] == '-';
    }
  }
}
