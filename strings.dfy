/**
 * String helpers the library builds on: `String.prototype.split` with a
 * one-character separator, `String.prototype.includes`, and the
 * `sanitize` helper that turns a space-separated class or event-type list
 * into its non-empty words.
 */
module Strings {

  /** `s.split(sep)`: the maximal runs of `s` between occurrences of `sep`.
      As in JavaScript, the empty string splits into `[""]`. */
  function Split(s: string, sep: char): (parts: seq<string>)
    ensures |parts| >= 1
    ensures forall i :: 0 <= i < |parts| ==> sep !in parts[i]
    decreases |s|
  {
    if |s| == 0 then [""]
    else if s[0] == sep then [""] + Split(s[1..], sep)
    else
      var rest := Split(s[1..], sep);
      [[s[0]] + rest[0]] + rest[1..]
  }

  /** `parts.join(sep)`, the inverse of `Split`. */
  function Join(parts: seq<string>, sep: char): string
  {
    if |parts| == 0 then ""
    else if |parts| == 1 then parts[0]
    else parts[0] + [sep] + Join(parts[1..], sep)
  }

  /** Element `i` of a split, read the way `position.split('-')[i]` is read
      and then concatenated into a string: a missing element is `undefined`,
      which concatenation turns into the text "undefined". */
  function PartOrUndefined(parts: seq<string>, i: nat): string
  {
    if i < |parts| then parts[i] else "undefined"
  }

  /** Splitting and joining again gives back the original string. */
  lemma {:induction false} JoinSplit(s: string, sep: char)
    ensures Join(Split(s, sep), sep) == s
    decreases |s|
  {
    if |s| == 0 {
    } else if s[0] == sep {
      JoinSplit(s[1..], sep);
      assert s == [sep] + s[1..];
    } else {
      JoinSplit(s[1..], sep);
      var rest := Split(s[1..], sep);
      if |rest| == 1 {
        assert s == [s[0]] + s[1..];
      } else {
        assert Join(rest, sep) == rest[0] + [sep] + Join(rest[1..], sep);
        assert s == [s[0]] + s[1..];
      }
    }
  }

  /** Splitting `a + sep + b` splits `a` and `b` separately. */
  lemma {:induction false} SplitAround(a: string, b: string, sep: char)
    ensures Split(a + [sep] + b, sep) == Split(a, sep) + Split(b, sep)
    decreases |a|
  {
    if |a| == 0 {
      assert a + [sep] + b == [sep] + b;
      SplitCons(sep, b, sep);
    } else {
      var t := a[1..] + [sep] + b;
      assert a + [sep] + b == [a[0]] + t;
      assert a == [a[0]] + a[1..];
      SplitAround(a[1..], b, sep);
      SplitCons(a[0], t, sep);
      SplitCons(a[0], a[1..], sep);
      var ra, sb := Split(a[1..], sep), Split(b, sep);
      if a[0] == sep {
        assert [""] + (ra + sb) == ([""] + ra) + sb;
      } else {
        JoinFirst([a[0]], ra, sb);
      }
    }
  }

  /** Prefixing the first part of `ra + sb` is prefixing the first part
      of `ra`. */
  lemma JoinFirst(c: string, ra: seq<string>, sb: seq<string>)
    requires |ra| >= 1
    ensures [c + (ra + sb)[0]] + (ra + sb)[1..] == ([c + ra[0]] + ra[1..]) + sb
  {
    assert (ra + sb)[0] == ra[0];
    assert (ra + sb)[1..] == ra[1..] + sb;
  }

  /** How a split starts: a separator opens an empty part, any other
      character joins the first part of the rest. */
  lemma SplitCons(c: char, t: string, sep: char)
    ensures Split([c] + t, sep) ==
      if c == sep then [""] + Split(t, sep)
      else [[c] + Split(t, sep)[0]] + Split(t, sep)[1..]
  {
    assert ([c] + t)[1..] == t;
    assert ([c] + t)[0] == c;
  }

  /** Joining words that do not contain the separator and splitting again
      gives back the words. */
  lemma {:induction false} SplitJoin(parts: seq<string>, sep: char)
    requires |parts| >= 1
    requires forall i :: 0 <= i < |parts| ==> sep !in parts[i]
    ensures Split(Join(parts, sep), sep) == parts
    decreases |parts|
  {
    if |parts| == 1 {
      SplitWithout(parts[0], sep);
    } else {
      SplitJoin(parts[1..], sep);
      SplitWithout(parts[0], sep);
      SplitAround(parts[0], Join(parts[1..], sep), sep);
      assert parts == [parts[0]] + parts[1..];
    }
  }

  /** A string without the separator splits into itself alone. */
  lemma {:induction false} SplitWithout(s: string, sep: char)
    requires sep !in s
    ensures Split(s, sep) == [s]
    decreases |s|
  {
    if |s| > 0 {
      assert s[0] in s;
      assert forall c :: c in s[1..] ==> c in s;
      SplitWithout(s[1..], sep);
      assert s == [s[0]] + s[1..];
    }
  }

  /** Whether `needle` occurs in `hay` at position 0. */
  predicate StartsWith(hay: string, needle: string)
  {
    |needle| <= |hay| && hay[..|needle|] == needle
  }

  /** `hay.includes(needle)`: whether `needle` occurs somewhere in `hay`
      (the empty needle occurs everywhere). */
  predicate Contains(hay: string, needle: string)
    decreases |hay|
  {
    if |hay| < |needle| then false
    else StartsWith(hay, needle) || (|hay| > 0 && Contains(hay[1..], needle))
  }

  /** Whether `needle` occurs in `hay` starting at index `i`. */
  predicate OccursAt(hay: string, needle: string, i: int)
  {
    0 <= i && i + |needle| <= |hay| && hay[i..i + |needle|] == needle
  }

  /** `Contains` agrees with the positional definition of an occurrence. */
  lemma {:induction false} ContainsAt(hay: string, needle: string)
    ensures Contains(hay, needle) <==> exists i :: OccursAt(hay, needle, i)
    decreases |hay|
  {
    if |hay| < |needle| {
    } else if StartsWith(hay, needle) {
      assert OccursAt(hay, needle, 0);
    } else {
      ContainsAt(hay[1..], needle);
      if Contains(hay, needle) {
        var i :| OccursAt(hay[1..], needle, i);
        OccursShift(hay, needle, i);
      } else {
        forall i ensures !OccursAt(hay, needle, i) {
          if i == 0 {
            assert hay[0..|needle|] == hay[..|needle|];
          } else if i > 0 {
            OccursShift(hay, needle, i - 1);
          }
        }
      }
    }
  }

  /** An occurrence in the tail is an occurrence one further on. */
  lemma OccursShift(hay: string, needle: string, i: int)
    requires |hay| > 0 && i >= 0
    ensures OccursAt(hay[1..], needle, i) <==> OccursAt(hay, needle, i + 1)
  {
    if 0 <= i && i + 1 + |needle| <= |hay| {
      assert hay[1..][i..i + |needle|] == hay[i + 1..i + 1 + |needle|];
    }
  }

  /** The characters of `s` other than `c`, in order. */
  function Without(s: string, c: char): (r: string)
    ensures c !in r
    ensures |r| <= |s|
  {
    if |s| == 0 then "" else (if s[0] == c then "" else [s[0]]) + Without(s[1..], c)
  }

  /** The strings of `ss` concatenated. */
  function Concat(ss: seq<string>): string
  {
    if |ss| == 0 then "" else ss[0] + Concat(ss[1..])
  }

  /** The non-empty strings of `ss`, in order (`.filter(c => c)`). */
  function NonEmpty(ss: seq<string>): (r: seq<string>)
    ensures forall i :: 0 <= i < |r| ==> r[i] != [] && r[i] in ss
  {
    if |ss| == 0 then []
    else if ss[0] == "" then NonEmpty(ss[1..])
    else [ss[0]] + NonEmpty(ss[1..])
  }

  /** `sanitize(classes)`: `classes.split(' ').filter(c => c)`. */
  function Sanitize(classes: string): (words: seq<string>)
    ensures forall i :: 0 <= i < |words| ==> words[i] != [] && ' ' !in words[i]
  {
    NonEmpty(Split(classes, ' '))
  }

  lemma {:induction false} ConcatSplit(s: string, sep: char)
    ensures Concat(Split(s, sep)) == Without(s, sep)
    decreases |s|
  {
    if |s| > 0 {
      ConcatSplit(s[1..], sep);
      var rest := Split(s[1..], sep);
      if s[0] != sep {
        assert Concat(rest) == rest[0] + Concat(rest[1..]);
        assert Concat([[s[0]] + rest[0]] + rest[1..]) == [s[0]] + rest[0] + Concat(rest[1..]);
      } else {
        assert Concat([""] + rest) == Concat(rest);
      }
    }
  }

  lemma {:induction false} ConcatNonEmpty(ss: seq<string>)
    ensures Concat(NonEmpty(ss)) == Concat(ss)
  {
    if |ss| > 0 {
      ConcatNonEmpty(ss[1..]);
      if ss[0] != "" {
        assert Concat([ss[0]] + NonEmpty(ss[1..])) == ss[0] + Concat(NonEmpty(ss[1..]));
      }
    }
  }

  /** The words `Sanitize` finds are exactly the text of `classes` with its
      spaces taken out, cut at the spaces. */
  lemma SanitizeKeepsText(classes: string)
    ensures Concat(Sanitize(classes)) == Without(classes, ' ')
  {
    ConcatNonEmpty(Split(classes, ' '));
    ConcatSplit(classes, ' ');
  }

  lemma {:induction false} NonEmptyOfNonEmpty(ss: seq<string>)
    requires forall i :: 0 <= i < |ss| ==> ss[i] != ""
    ensures NonEmpty(ss) == ss
  {
    if |ss| > 0 {
      NonEmptyOfNonEmpty(ss[1..]);
      assert ss == [ss[0]] + ss[1..];
    }
  }

  /** A list of non-empty, space-free words joined by single spaces
      sanitizes back to the same words. */
  lemma SanitizeJoin(words: seq<string>)
    requires |words| >= 1
    requires forall i :: 0 <= i < |words| ==> words[i] != "" && ' ' !in words[i]
    ensures Sanitize(Join(words, ' ')) == words
  {
    SplitJoin(words, ' ');
    NonEmptyOfNonEmpty(words);
  }

  lemma {:induction false} NonEmptyAppend(a: seq<string>, b: seq<string>)
    ensures NonEmpty(a + b) == NonEmpty(a) + NonEmpty(b)
  {
    if |a| > 0 {
      NonEmptyAppend(a[1..], b);
      assert (a + b)[1..] == a[1..] + b;
      assert (a + b)[0] == a[0];
    } else {
      assert a + b == b;
    }
  }

  /** Sanitizing two lists joined by a space gives the words of the first
      followed by the words of the second. */
  lemma SanitizeAround(a: string, b: string)
    ensures Sanitize(a + " " + b) == Sanitize(a) + Sanitize(b)
  {
    SplitAround(a, b, ' ');
    assert a + " " + b == a + [' '] + b;
    NonEmptyAppend(Split(a, ' '), Split(b, ' '));
  }
}
