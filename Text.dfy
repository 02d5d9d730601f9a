/** The JavaScript string operations the action relies on, on `seq<char>`:
    `split(/\s+/)`, `split("\n")`, `join`, `includes`, the decimal form of
    an integer in a template literal, and ASCII case folding. */
module Text {
  import opened Wrappers

  /** JavaScript truthiness of an optional string: present and non-empty. */
  predicate Truthy(s: Option<string>) {
    s.Some? && s.value != []
  }

  /** ECMAScript's `\s` class: the WhiteSpace and LineTerminator code points. */
  predicate IsSpace(c: char) {
    || c == ' ' || c == '\t' || c == '\n' || c == '\r'
    || c == '\U{000B}' || c == '\U{000C}' || c == '\U{00A0}' || c == '\U{1680}'
    || ('\U{2000}' <= c <= '\U{200A}')
    || c == '\U{2028}' || c == '\U{2029}' || c == '\U{202F}' || c == '\U{205F}'
    || c == '\U{3000}' || c == '\U{FEFF}'
  }

  /** ECMAScript's LineTerminator code points: the characters `.` does not match. */
  predicate IsLineTerminator(c: char) {
    c == '\n' || c == '\r' || c == '\U{2028}' || c == '\U{2029}'
  }

  predicate NoSpace(s: string) {
    forall k :: 0 <= k < |s| ==> !IsSpace(s[k])
  }

  // ---------------------------------------------------------------------------
  // s.split(/\s+/)
  // ---------------------------------------------------------------------------

  /** The index of the first whitespace character of `s`, or `|s|` if none. */
  function FirstSpace(s: string): (i: nat)
    ensures i <= |s|
    ensures forall k :: 0 <= k < i ==> !IsSpace(s[k])
    ensures i < |s| ==> IsSpace(s[i])
  {
    if s == [] || IsSpace(s[0]) then 0 else 1 + FirstSpace(s[1..])
  }

  /** The end of the run of whitespace that starts at `i`. */
  function EndOfSpaces(s: string, i: nat): (j: nat)
    requires i <= |s|
    ensures i <= j <= |s|
    ensures forall k :: i <= k < j ==> IsSpace(s[k])
    ensures j == |s| || !IsSpace(s[j])
    decreases |s| - i
  {
    if i < |s| && IsSpace(s[i]) then EndOfSpaces(s, i + 1) else i
  }

  /** Fields as `s.split(/\s+/)` yields them: at least one, none holding
      whitespace, and only the first and the last possibly empty (leading or
      trailing whitespace). */
  predicate WellFormedFields(fields: seq<string>) {
    && |fields| >= 1
    && (forall k :: 0 <= k < |fields| ==> NoSpace(fields[k]))
    && (forall k :: 0 < k < |fields| - 1 ==> fields[k] != [])
  }

  /** JavaScript's `s.split(/\s+/)`: every maximal run of whitespace separates
      two fields. */
  function SplitWhitespace(s: string): (fields: seq<string>)
    ensures WellFormedFields(fields)
    ensures fields[0] == s[..FirstSpace(s)]
    decreases |s|
  {
    var i := FirstSpace(s);
    if i == |s| then [s]
    else
      var j := EndOfSpaces(s, i);
      var rest := SplitWhitespace(s[j..]);
      assert |rest| > 1 ==> s[j..] != [] && rest[0] != [];
      [s[..i]] + rest
  }

  /** Every character of `w` is whitespace. */
  predicate AllSpace(w: string) {
    forall k :: 0 <= k < |w| ==> IsSpace(w[k])
  }

  /** The whitespace runs `split(/\s+/)` drops, in order: the run after each
      field but the last. */
  function Separators(s: string): (seps: seq<string>)
    ensures |seps| == |SplitWhitespace(s)| - 1
    ensures forall k :: 0 <= k < |seps| ==> seps[k] != [] && AllSpace(seps[k])
    decreases |s|
  {
    var i := FirstSpace(s);
    if i == |s| then []
    else
      var j := EndOfSpaces(s, i);
      SplitWhitespaceAt(s);
      [s[i..j]] + Separators(s[j..])
  }

  /** The fields with the separators put back between them. */
  function Interleave(fields: seq<string>, seps: seq<string>): string
    requires |fields| == |seps| + 1
    decreases |seps|
  {
    if seps == [] then fields[0] else fields[0] + seps[0] + Interleave(fields[1..], seps[1..])
  }

  /** One step of `Separators`: the first dropped run, then the runs of the rest. */
  lemma SeparatorsAt(s: string)
    requires FirstSpace(s) < |s|
    ensures Separators(s) == [s[FirstSpace(s)..EndOfSpaces(s, FirstSpace(s))]] + Separators(s[EndOfSpaces(s, FirstSpace(s))..])
  {
  }

  /** One step of `Interleave`: the field `s[..i]` and the separator
      `s[i..j]` in front of an interleaving that gives `s[j..]` give `s`. */
  lemma InterleaveStep(s: string, i: nat, j: nat, fields: seq<string>, seps: seq<string>)
    requires i <= j <= |s| && |fields| == |seps| + 1
    requires Interleave(fields, seps) == s[j..]
    ensures Interleave([s[..i]] + fields, [s[i..j]] + seps) == s
  {
    assert ([s[..i]] + fields)[1..] == fields;
    assert ([s[i..j]] + seps)[1..] == seps;
    assert s == s[..i] + s[i..j] + s[j..];
  }

  /** Nothing is lost by the split: putting the dropped whitespace runs back
      between the fields gives the text again. With `WellFormedFields` this
      pins the fields of any text, whatever whitespace it uses. */
  lemma {:induction false} SplitWhitespaceRebuilds(s: string)
    ensures Interleave(SplitWhitespace(s), Separators(s)) == s
    decreases |s|
  {
    var i := FirstSpace(s);
    if i < |s| {
      var j := EndOfSpaces(s, i);
      SplitWhitespaceAt(s);
      SeparatorsAt(s);
      SplitWhitespaceRebuilds(s[j..]);
      InterleaveStep(s, i, j, SplitWhitespace(s[j..]), Separators(s[j..]));
    }
  }

  /** JavaScript's `parts.join(sep)`. */
  function Join(parts: seq<string>, sep: string): string {
    if |parts| == 0 then ""
    else if |parts| == 1 then parts[0]
    else parts[0] + sep + Join(parts[1..], sep)
  }

  /** Splitting a single-space join of well-formed fields on whitespace gives
      the fields back. */
  lemma {:induction false} SplitJoinRoundTrip(fields: seq<string>)
    requires WellFormedFields(fields)
    ensures SplitWhitespace(Join(fields, " ")) == fields
  {
    if |fields| == 1 {
      assert FirstSpace(fields[0]) == |fields[0]|;
    } else {
      var head, tail := fields[0], fields[1..];
      assert WellFormedFields(tail);
      JoinStartsWithNonSpace(tail);
      SplitAfterField(head, Join(tail, " "));
      assert Join(fields, " ") == head + " " + Join(tail, " ");
      SplitJoinRoundTrip(tail);
      assert fields == [head] + tail;
    }
  }

  /** A field, one space and a string that does not start with whitespace
      split into the field and the split of that string. */
  lemma SplitAfterField(head: string, t: string)
    requires NoSpace(head)
    requires t == [] || !IsSpace(t[0])
    ensures SplitWhitespace(head + " " + t) == [head] + SplitWhitespace(t)
  {
    var s := head + " " + t;
    assert s == head + (" " + t);
    FirstSpaceOfPrefix(head, " " + t);
    EndOfSpacesAfterOne(s, |head|, t);
    SplitWhitespaceAt(s);
    assert s[..|head|] == head;
    assert s[|head| + 1..] == t;
  }

  /** One step of the split: the field before the first whitespace run, then
      the split of what follows the run. */
  lemma SplitWhitespaceAt(s: string)
    requires FirstSpace(s) < |s|
    ensures var i := FirstSpace(s);
      SplitWhitespace(s) == [s[..i]] + SplitWhitespace(s[EndOfSpaces(s, i)..])
  {
  }

  lemma FirstSpaceOfPrefix(a: string, b: string)
    requires NoSpace(a) && b != [] && IsSpace(b[0])
    ensures FirstSpace(a + b) == |a|
  {
    assert forall k :: 0 <= k < |a| ==> (a + b)[k] == a[k];
    assert (a + b)[|a|] == b[0];
  }

  /** A well-formed join with more than one field starts with a non-space, or
      is empty. */
  lemma JoinStartsWithNonSpace(fields: seq<string>)
    requires WellFormedFields(fields)
    requires |fields| > 1 ==> fields[0] != []
    ensures var t := Join(fields, " "); t == [] || !IsSpace(t[0])
  {
    if |fields| > 1 && fields[0] != [] {
      assert Join(fields, " ")[0] == fields[0][0];
    }
  }

  lemma EndOfSpacesAfterOne(s: string, i: nat, t: string)
    requires i < |s| && s[i] == ' ' && s[i + 1..] == t
    requires t == [] || !IsSpace(t[0])
    ensures EndOfSpaces(s, i) == i + 1
  {
    if i + 1 < |s| {
      assert s[i + 1] == t[0];
    }
  }

  // ---------------------------------------------------------------------------
  // s.split(sep) for a one-character separator
  // ---------------------------------------------------------------------------

  /** The index of the first `c` in `s`, or `|s|` if none. */
  function IndexOf(s: string, c: char): (i: nat)
    ensures i <= |s|
    ensures forall k :: 0 <= k < i ==> s[k] != c
    ensures i < |s| ==> s[i] == c
  {
    IndexFrom(s, c, 0)
  }

  /** The index of the first `c` in `s` at or after `j`, or `|s|` if none. */
  function IndexFrom(s: string, c: char, j: nat): (i: nat)
    requires j <= |s|
    ensures j <= i <= |s|
    ensures forall k :: j <= k < i ==> s[k] != c
    ensures i < |s| ==> s[i] == c
    decreases |s| - j
  {
    if j == |s| || s[j] == c then j else IndexFrom(s, c, j + 1)
  }

  /** JavaScript's `s.split(sep)` for a one-character string `sep`: the
      pieces between separators, in order, at least one. */
  function SplitOn(s: string, sep: char): (parts: seq<string>)
    ensures |parts| >= 1
    decreases |s|
  {
    var i := IndexOf(s, sep);
    if i == |s| then [s] else [s[..i]] + SplitOn(s[i + 1..], sep)
  }

  /** The first part runs up to the first separator, or is the whole string. */
  lemma SplitOnFirst(s: string, sep: char)
    ensures SplitOn(s, sep)[0] == s[..IndexOf(s, sep)]
    ensures sep !in SplitOn(s, sep)[0]
  {
    var i := IndexOf(s, sep);
    assert forall k :: 0 <= k < i ==> s[..i][k] == s[k];
  }

  /** No part holds the separator. */
  lemma {:induction false} SplitOnExcludesSep(s: string, sep: char)
    ensures forall k :: 0 <= k < |SplitOn(s, sep)| ==> sep !in SplitOn(s, sep)[k]
    decreases |s|
  {
    var i := IndexOf(s, sep);
    SplitOnFirst(s, sep);
    if i < |s| {
      SplitOnExcludesSep(s[i + 1..], sep);
      var rest := SplitOn(s[i + 1..], sep);
      assert SplitOn(s, sep) == [s[..i]] + rest;
      assert forall k :: 1 <= k < |SplitOn(s, sep)| ==> SplitOn(s, sep)[k] == rest[k - 1];
    }
  }

  /** Joining the parts with the separator restores the string. */
  lemma {:induction false} SplitOnJoin(s: string, sep: char)
    ensures Join(SplitOn(s, sep), [sep]) == s
    decreases |s|
  {
    var i := IndexOf(s, sep);
    if i < |s| {
      var rest := SplitOn(s[i + 1..], sep);
      SplitOnAt(s, sep);
      SplitOnJoin(s[i + 1..], sep);
      JoinCons(s[..i], rest, [sep]);
      assert s == s[..i] + [sep] + s[i + 1..];
    }
  }

  lemma JoinCons(x: string, rest: seq<string>, sep: string)
    requires |rest| >= 1
    ensures Join([x] + rest, sep) == x + sep + Join(rest, sep)
  {
    assert ([x] + rest)[1..] == rest;
  }

  /** Splitting `a + sep + b` splits `a` and `b` separately. */
  lemma {:induction false} SplitOnConcat(a: string, sep: char, b: string)
    ensures SplitOn(a + [sep] + b, sep) == SplitOn(a, sep) + SplitOn(b, sep)
    decreases |a|, 1
  {
    if IndexOf(a, sep) == |a| {
      SplitOnAtLastOfPrefix(a, sep, b);
    } else {
      SplitOnConcatWithin(a, sep, b);
    }
  }

  /** The inductive step of `SplitOnConcat`, when `a` holds a separator. */
  lemma {:induction false} SplitOnConcatWithin(a: string, sep: char, b: string)
    requires IndexOf(a, sep) < |a|
    ensures SplitOn(a + [sep] + b, sep) == SplitOn(a, sep) + SplitOn(b, sep)
    decreases |a|, 0
  {
    var i := IndexOf(a, sep);
    var rest := a[i + 1..];
    SplitOnWithinPrefix(a, sep, b);
    SplitOnConcat(rest, sep, b);
    SplitOnAt(a, sep);
  }

  /** When `a` holds no separator, its first part is all of `a`. */
  lemma SplitOnAtLastOfPrefix(a: string, sep: char, b: string)
    requires IndexOf(a, sep) == |a|
    ensures SplitOn(a + [sep] + b, sep) == [a] + SplitOn(b, sep)
  {
    var s := a + [sep] + b;
    IndexOfPastPrefix(a, sep, b);
    assert s[..|a|] == a;
    assert s[|a| + 1..] == b;
  }

  /** When `a` holds a separator, the first part ends before it in `a`. */
  lemma SplitOnWithinPrefix(a: string, sep: char, b: string)
    requires IndexOf(a, sep) < |a|
    ensures var i := IndexOf(a, sep);
      SplitOn(a + [sep] + b, sep) == [a[..i]] + SplitOn(a[i + 1..] + [sep] + b, sep)
  {
    var s := a + [sep] + b;
    var i := IndexOf(a, sep);
    assert s == a + ([sep] + b);
    IndexOfWithinPrefix(a, sep, [sep] + b);
    SplitOnAt(s, sep);
    assert s[..i] == a[..i];
    assert s[i + 1..] == a[i + 1..] + [sep] + b;
  }

  /** One step of the split: the part before the first separator, then the
      split of the rest. */
  lemma SplitOnAt(s: string, sep: char)
    requires IndexOf(s, sep) < |s|
    ensures var i := IndexOf(s, sep); SplitOn(s, sep) == [s[..i]] + SplitOn(s[i + 1..], sep)
  {
  }

  lemma IndexOfPastPrefix(a: string, c: char, b: string)
    requires c !in a
    ensures IndexOf(a + [c] + b, c) == |a|
  {
    var s := a + [c] + b;
    assert forall k :: 0 <= k < |a| ==> s[k] == a[k];
    assert s[|a|] == c;
  }

  lemma IndexOfWithinPrefix(a: string, c: char, b: string)
    requires IndexOf(a, c) < |a|
    ensures IndexOf(a + b, c) == IndexOf(a, c)
  {
    assert forall k :: 0 <= k < |a| ==> (a + b)[k] == a[k];
  }

  // ---------------------------------------------------------------------------
  // s.includes(t)
  // ---------------------------------------------------------------------------

  /** `t` occurs in `s` starting at index `i`. */
  predicate OccursAt(s: string, t: string, i: int) {
    0 <= i && i + |t| <= |s| && s[i..i + |t|] == t
  }

  /** JavaScript's `s.includes(t)`: `t` occurs in `s` at some index. */
  function Includes(s: string, t: string): (r: bool)
    ensures r <==> exists i :: OccursAt(s, t, i)
    decreases |s|
  {
    if |t| > |s| then false
    else if s[..|t|] == t then (assert OccursAt(s, t, 0); true)
    else
      var r := Includes(s[1..], t);
      assert r ==> exists i :: OccursAt(s, t, i) by {
        if r {
          var i :| OccursAt(s[1..], t, i);
          assert s[1..][i..i + |t|] == s[i + 1..i + 1 + |t|];
          assert OccursAt(s, t, i + 1);
        }
      }
      assert (exists i :: OccursAt(s, t, i)) ==> r by {
        if exists i :: OccursAt(s, t, i) {
          var i :| OccursAt(s, t, i);
          assert i != 0;
          assert s[1..][i - 1..i - 1 + |t|] == s[i..i + |t|];
          assert OccursAt(s[1..], t, i - 1);
        }
      }
      r
  }

  /** `t` occurs in `a + t + b`. */
  lemma IncludesMiddle(a: string, t: string, b: string)
    ensures Includes(a + t + b, t)
  {
    assert (a + t + b)[|a|..|a| + |t|] == t;
    assert OccursAt(a + t + b, t, |a|);
  }

  /** What occurs in a part also occurs in the whole. */
  lemma IncludesWithin(a: string, s: string, b: string, t: string)
    requires Includes(s, t)
    ensures Includes(a + s + b, t)
  {
    var i :| OccursAt(s, t, i);
    assert (a + s + b)[|a| + i..|a| + i + |t|] == s[i..i + |t|];
    assert OccursAt(a + s + b, t, |a| + i);
  }

  // ---------------------------------------------------------------------------
  // The decimal form of an integer in a template literal
  // ---------------------------------------------------------------------------

  predicate IsDigit(c: char) {
    48 <= c as int <= 57
  }

  function DigitChar(d: nat): (c: char)
    requires d < 10
    ensures IsDigit(c)
  {
    (48 + d) as char
  }

  /** The decimal digits of `n`, most significant first, without leading zeros. */
  function NatToDecimal(n: nat): (s: string)
    ensures |s| >= 1
    ensures forall k :: 0 <= k < |s| ==> IsDigit(s[k])
    ensures |s| > 1 ==> s[0] != '0'
  {
    if n < 10 then [DigitChar(n)] else NatToDecimal(n / 10) + [DigitChar(n % 10)]
  }

  /** The number a string of decimal digits denotes. */
  function DecimalValue(s: string): nat
    requires forall k :: 0 <= k < |s| ==> IsDigit(s[k])
  {
    if s == [] then 0
    else
      assert IsDigit(s[|s| - 1]);
      10 * DecimalValue(s[..|s| - 1]) + (s[|s| - 1] as int - 48)
  }

  /** Reading the decimal form back gives the number. */
  lemma {:induction false} DecimalRoundTrip(n: nat)
    ensures DecimalValue(NatToDecimal(n)) == n
  {
    var s := NatToDecimal(n);
    if n >= 10 {
      DecimalRoundTrip(n / 10);
      assert s[..|s| - 1] == NatToDecimal(n / 10);
    }
  }

  /** The decimal form of an integer, with a leading `-` when negative. */
  function IntToDecimal(n: int): (s: string)
    ensures |s| >= 1 && (s[0] == '-' <==> n < 0)
    ensures forall k :: 1 <= k < |s| ==> IsDigit(s[k])
    ensures n >= 0 ==> IsDigit(s[0]) && DecimalValue(s) == n
    ensures n < 0 ==> DecimalValue(s[1..]) == -n
    ensures n >= 0 ==> (|s| > 1 ==> s[0] != '0')
    ensures n < 0 ==> |s| >= 2 && s[1] != '0'
  {
    if n < 0 then
      DecimalRoundTrip(-n);
      assert ("-" + NatToDecimal(-n))[1..] == NatToDecimal(-n);
      "-" + NatToDecimal(-n)
    else
      DecimalRoundTrip(n);
      NatToDecimal(n)
  }

  /** Distinct integers have distinct decimal forms. */
  lemma IntToDecimalInjective(m: int, n: int)
    requires IntToDecimal(m) == IntToDecimal(n)
    ensures m == n
  {
    var d := IntToDecimal(m);
    if m >= 0 {
      DecimalRoundTrip(m);
      DecimalRoundTrip(n);
    } else {
      assert d[1..] == NatToDecimal(-m) == NatToDecimal(-n);
      DecimalRoundTrip(-m);
      DecimalRoundTrip(-n);
    }
  }

  // ---------------------------------------------------------------------------
  // ASCII case folding
  // ---------------------------------------------------------------------------

  function AsciiLower(c: char): char {
    if 'A' <= c <= 'Z' then (c as int + 32) as char else c
  }

  /** Equal up to the case of ASCII letters. Under a non-Unicode `/i` regular
      expression a pattern character that is ASCII matches exactly the
      characters this relation relates it to, since case canonicalisation
      never maps a non-ASCII character onto an ASCII one. */
  predicate EqualIgnoringAsciiCase(s: string, t: string) {
    |s| == |t| && forall k :: 0 <= k < |s| ==> AsciiLower(s[k]) == AsciiLower(t[k])
  }
}
