/** The string operations the backup scripts rely on: `str.split` with a one-character separator,
    `int()` of a decimal field and zero-padded decimal formatting. */
module Text {

  predicate IsDigit(c: char) {
    '0' <= c <= '9'
  }

  predicate AllDigits(s: string) {
    forall i :: 0 <= i < |s| ==> IsDigit(s[i])
  }

  function DigitValue(c: char): int
    requires IsDigit(c)
  {
    c as int - '0' as int
  }

  /** `int(s)` for a string of ASCII decimal digits. */
  function DecimalValue(s: string): (v: nat)
    requires AllDigits(s)
    ensures v < Pow10(|s|)
  {
    if s == [] then 0 else DecimalValue(s[..|s| - 1]) * 10 + DigitValue(s[|s| - 1])
  }

  function Pow10(w: nat): nat {
    if w == 0 then 1 else 10 * Pow10(w - 1)
  }

  /** The last `w` decimal digits of `v`, zero-padded (strftime's `%Y`, `%m`, `%d`). */
  function Padded(v: nat, w: nat): (s: string)
    ensures |s| == w && AllDigits(s)
  {
    if w == 0 then [] else Padded(v / 10, w - 1) + [('0' as int + v % 10) as char]
  }

  /** Reading back a padded number that fits its width gives the number. */
  lemma {:induction false} PaddedValue(v: nat, w: nat)
    requires v < Pow10(w)
    ensures DecimalValue(Padded(v, w)) == v
  {
    if w > 0 {
      var s := Padded(v, w);
      assert s[..|s| - 1] == Padded(v / 10, w - 1);
      PaddedValue(v / 10, w - 1);
    }
  }

  /** Python's `s.split(sep)`: the pieces between occurrences of `sep`, empty ones included. */
  function Split(s: string, sep: char): (parts: seq<string>)
    ensures |parts| >= 1
    ensures |parts| == 1 <==> sep !in s
    ensures forall i :: 0 <= i < |parts| ==> sep !in parts[i]
  {
    if s == [] then [[]]
    else
      var rest := Split(s[1..], sep);
      if s[0] == sep then [[]] + rest
      else [[s[0]] + rest[0]] + rest[1..]
  }

  /** `sep.join(parts)`, the inverse of Split. */
  function Join(parts: seq<string>, sep: char): string
    requires |parts| >= 1
  {
    if |parts| == 1 then parts[0] else parts[0] + [sep] + Join(parts[1..], sep)
  }

  /** Joining the pieces of a split gives back the original string. */
  lemma {:induction false} JoinSplit(s: string, sep: char)
    ensures Join(Split(s, sep), sep) == s
  {
    if s != [] {
      JoinSplit(s[1..], sep);
      var rest := Split(s[1..], sep);
      if s[0] != sep && |rest| > 1 {
        assert ([[s[0]] + rest[0]] + rest[1..])[1..] == rest[1..];
        assert Join(rest, sep) == rest[0] + [sep] + Join(rest[1..], sep);
      }
    }
  }

  /** The first piece of a split is a prefix of the string, so it holds no other characters, and
      when the separator occurs the first occurrence comes right after it. */
  lemma SplitFirstIsPrefix(s: string, sep: char)
    ensures Split(s, sep)[0] <= s
    ensures forall c :: c in Split(s, sep)[0] ==> c in s
    ensures sep in s ==> |Split(s, sep)[0]| < |s| && s[|Split(s, sep)[0]|] == sep
  {
    var parts := Split(s, sep);
    JoinSplit(s, sep);
    if |parts| > 1 {
      assert s == parts[0] + ([sep] + Join(parts[1..], sep));
    }
    forall c | c in parts[0] ensures c in s {
      var i :| 0 <= i < |parts[0]| && parts[0][i] == c;
      assert s[i] == c;
    }
  }

  /** A string without the separator splits into itself. */
  lemma {:induction false} SplitWithoutSeparator(s: string, sep: char)
    requires sep !in s
    ensures Split(s, sep) == [s]
  {
    if s != [] {
      SplitWithoutSeparator(s[1..], sep);
      assert [s[0]] + s[1..] == s;
    }
  }

  /** Splitting distributes over a separator written between two strings. */
  lemma {:induction false} SplitAround(p: string, sep: char, t: string)
    ensures Split(p + [sep] + t, sep) == Split(p, sep) + Split(t, sep)
  {
    if p == [] {
      assert p + [sep] + t == [sep] + t;
      assert ([sep] + t)[1..] == t;
    } else {
      assert (p + [sep] + t)[1..] == p[1..] + [sep] + t;
      SplitAround(p[1..], sep, t);
    }
  }

  lemma SplitTwo(a: string, sep: char, b: string)
    requires sep !in a && sep !in b
    ensures Split(a + [sep] + b, sep) == [a, b]
  {
    SplitAround(a, sep, b);
    SplitWithoutSeparator(a, sep);
    SplitWithoutSeparator(b, sep);
  }

  lemma SplitThree(a: string, sep: char, b: string, c: string)
    requires sep !in a && sep !in b && sep !in c
    ensures Split(a + [sep] + b + [sep] + c, sep) == [a, b, c]
  {
    assert a + [sep] + b + [sep] + c == a + [sep] + (b + [sep] + c);
    SplitAround(a, sep, b + [sep] + c);
    SplitWithoutSeparator(a, sep);
    SplitTwo(b, sep, c);
  }
}
