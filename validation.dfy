/**
 * The two input validators of backend/signup.go (`usernameRe` and `emailRe`),
 * written as character-level predicates. Both regular expressions are anchored
 * at both ends and use ASCII classes only.
 */
module Validation {

  predicate IsAsciiAlnum(c: char) {
    'A' <= c <= 'Z' || 'a' <= c <= 'z' || '0' <= c <= '9'
  }

  /** `[A-Za-z0-9_-]` */
  predicate IsUsernameChar(c: char) {
    IsAsciiAlnum(c) || c == '_' || c == '-'
  }

  /**
   * `^[A-Za-z0-9_-]+$`: a non-empty string of letters, digits, `_` and `-`.
   * In particular a valid username never holds an `@` or a `.`.
   */
  predicate ValidUsername(s: string)
    ensures ValidUsername(s) ==> s != [] && '@' !in s && '.' !in s
  {
    s != [] && forall i :: 0 <= i < |s| ==> IsUsernameChar(s[i])
  }

  /** `[A-Za-z0-9._%+\-]`, the characters allowed inside the local part. */
  predicate IsLocalChar(c: char) {
    IsAsciiAlnum(c) || c == '.' || c == '_' || c == '%' || c == '+' || c == '-'
  }

  /**
   * `[A-Za-z0-9](?:[A-Za-z0-9._%+\-]{0,63}[A-Za-z0-9])?`: one alphanumeric, or an
   * alphanumeric, at most 63 local characters and an alphanumeric, so 1 to 65
   * characters that begin and end alphanumerically.
   */
  predicate LocalPartOk(s: string) {
    1 <= |s| <= 65 && IsAsciiAlnum(s[0]) && IsAsciiAlnum(s[|s| - 1])
    && forall i :: 0 <= i < |s| ==> IsLocalChar(s[i])
  }

  /** `[A-Za-z0-9\-]` */
  predicate IsLabelChar(c: char) {
    IsAsciiAlnum(c) || c == '-'
  }

  /** `[A-Za-z0-9](?:[A-Za-z0-9\-]{0,61}[A-Za-z0-9])?`: 1 to 63 characters, alphanumeric at both ends. */
  predicate LabelOk(s: string) {
    1 <= |s| <= 63 && IsAsciiAlnum(s[0]) && IsAsciiAlnum(s[|s| - 1])
    && forall i :: 0 <= i < |s| ==> IsLabelChar(s[i])
  }

  predicate AllLabelsOk(labels: seq<string>) {
    forall i :: 0 <= i < |labels| ==> LabelOk(labels[i])
  }

  /** The parts of `parts` with `sep` between consecutive ones. */
  function Join(parts: seq<string>, sep: char): string
    requires |parts| >= 1
  {
    if |parts| == 1 then parts[0] else parts[0] + [sep] + Join(parts[1..], sep)
  }

  predicate FreeOf(parts: seq<string>, sep: char) {
    forall i :: 0 <= i < |parts| ==> sep !in parts[i]
  }

  /**
   * The language of `emailRe`: a local part, an `@`, then a domain of at least
   * two labels separated by dots (`label(\.label)+`).
   */
  ghost predicate EmailShape(s: string) {
    exists local: string, labels: seq<string> ::
      |labels| >= 2 && s == local + "@" + Join(labels, '.')
      && LocalPartOk(local) && AllLabelsOk(labels)
  }

  /** The pieces of `s` between occurrences of `sep` (as many as there are separators, plus one). */
  function Split(s: string, sep: char): (parts: seq<string>)
    ensures |parts| >= 1 && FreeOf(parts, sep)
    ensures Join(parts, sep) == s
  {
    if s == [] then [""]
    else
      var rest := Split(s[1..], sep);
      if s[0] == sep then [""] + rest
      else [[s[0]] + rest[0]] + rest[1..]
  }

  /** Splitting a string that starts with a separator-free piece. */
  lemma {:induction false} SplitAfterPiece(a: string, t: string, sep: char)
    requires sep !in a
    ensures Split(a + t, sep) == [a + Split(t, sep)[0]] + Split(t, sep)[1..]
  {
    var st := Split(t, sep);
    if a == [] {
      assert a + t == t;
      assert a + st[0] == st[0];
      assert [st[0]] + st[1..] == st;
    } else {
      SplitAfterPiece(a[1..], t, sep);
      assert (a + t)[0] == a[0] != sep;
      assert (a + t)[1..] == a[1..] + t;
      var rest := Split(a[1..] + t, sep);
      assert rest == [a[1..] + st[0]] + st[1..];
      assert Split(a + t, sep) == [[a[0]] + rest[0]] + rest[1..];
      assert [a[0]] + (a[1..] + st[0]) == a + st[0];
    }
  }

  lemma SplitAfterSeparator(r: string, sep: char)
    ensures Split([sep] + r, sep) == [""] + Split(r, sep)
  {
    assert ([sep] + r)[1..] == r;
  }

  /** A piece free of the separator splits into itself. */
  lemma SplitPiece(a: string, sep: char)
    requires sep !in a
    ensures Split(a, sep) == [a]
  {
    SplitAfterPiece(a, "", sep);
    assert a + "" == a;
  }

  /** A separator-free piece, a separator, then a string whose split is known. */
  lemma SplitPieceThenRest(a: string, rest: string, tail: seq<string>, sep: char)
    requires sep !in a && Split(rest, sep) == tail
    ensures Split(a + ([sep] + rest), sep) == [a] + tail
  {
    SplitAfterSeparator(rest, sep);
    SplitAfterPiece(a, [sep] + rest, sep);
    assert ([""] + tail)[1..] == tail && a + "" == a;
  }

  /** Splitting undoes joining when no part holds the separator. */
  lemma {:induction false} SplitJoin(parts: seq<string>, sep: char)
    requires |parts| >= 1 && FreeOf(parts, sep)
    ensures Split(Join(parts, sep), sep) == parts
  {
    assert sep !in parts[0];
    if |parts| == 1 {
      SplitPiece(parts[0], sep);
    } else {
      var tail := parts[1..];
      assert FreeOf(tail, sep);
      SplitJoin(tail, sep);
      SplitPieceThenRest(parts[0], Join(tail, sep), tail, sep);
      assert Join(parts, sep) == parts[0] + ([sep] + Join(tail, sep));
      assert [parts[0]] + tail == parts;
    }
  }

  lemma JoinFreeOf(parts: seq<string>, sep: char, c: char)
    requires |parts| >= 1 && FreeOf(parts, c) && c != sep
    ensures c !in Join(parts, sep)
  {
  }

  /**
   * The email splits uniquely at its single `@`: neither the local part nor the
   * domain can hold one, so the witnesses of `EmailShape` are determined by the string.
   */
  lemma {:induction false} EmailSplitsUniquely(s: string, local: string, labels: seq<string>)
    requires |labels| >= 2 && s == local + "@" + Join(labels, '.')
    requires LocalPartOk(local) && AllLabelsOk(labels)
    ensures Split(s, '@') == [local, Join(labels, '.')]
    ensures Split(Join(labels, '.'), '.') == labels
  {
    var domain := Join(labels, '.');
    assert FreeOf(labels, '@') && FreeOf(labels, '.') by {
      forall i | 0 <= i < |labels|
        ensures '@' !in labels[i] && '.' !in labels[i]
      {
        assert LabelOk(labels[i]);
      }
    }
    JoinFreeOf(labels, '.', '@');
    assert '@' !in local by {
      assert forall i :: 0 <= i < |local| ==> IsLocalChar(local[i]);
    }
    assert FreeOf([local, domain], '@');
    SplitJoin([local, domain], '@');
    assert Join([local, domain], '@') == s;
    SplitJoin(labels, '.');
  }

  /**
   * `emailRe.MatchString`: split at `@` into exactly two parts, then split the
   * domain at dots into at least two labels, and check every piece. It accepts a
   * string exactly when the string is in the language of the expression.
   */
  function IsValidEmail(s: string): (ok: bool)
    ensures ok <==> EmailShape(s)
    ensures ok ==> '@' in s
  {
    var parts := Split(s, '@');
    var ok := |parts| == 2 && LocalPartOk(parts[0])
              && var labels := Split(parts[1], '.');
              |labels| >= 2 && AllLabelsOk(labels);
    if ok then
      ShapeOfParts(s, parts);
      ok
    else
      ShapeHasParts(s);
      ok
  }

  lemma ShapeOfParts(s: string, parts: seq<string>)
    requires parts == Split(s, '@') && |parts| == 2 && LocalPartOk(parts[0])
    requires |Split(parts[1], '.')| >= 2 && AllLabelsOk(Split(parts[1], '.'))
    ensures EmailShape(s) && '@' in s
  {
    var labels := Split(parts[1], '.');
    assert Join(parts, '@') == parts[0] + "@" + parts[1];
    assert s == parts[0] + "@" + Join(labels, '.');
    assert s[|parts[0]|] == '@';
  }

  lemma ShapeHasParts(s: string)
    ensures EmailShape(s) ==>
            var parts := Split(s, '@');
            |parts| == 2 && LocalPartOk(parts[0])
            && |Split(parts[1], '.')| >= 2 && AllLabelsOk(Split(parts[1], '.'))
  {
    if EmailShape(s) {
      var local, labels :| |labels| >= 2 && s == local + "@" + Join(labels, '.')
                           && LocalPartOk(local) && AllLabelsOk(labels);
      EmailSplitsUniquely(s, local, labels);
    }
  }
}
