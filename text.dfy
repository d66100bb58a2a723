/** The two string operations the listings rely on: JavaScript's
    `String.prototype.split` with a one-character separator, and the
    `LIKE '%keyword%'` test of the search query. */
module Text {

  /** Glues pieces back together with `sep` between them (`Array.prototype.join`). */
  function Join(parts: seq<string>, sep: char): string
  {
    if parts == [] then ""
    else if |parts| == 1 then parts[0]
    else parts[0] + [sep] + Join(parts[1..], sep)
  }

  /** `s.split(sep)`: the pieces between separators, untrimmed; "" splits to [""]
      and a trailing separator yields a trailing "". */
  function Split(s: string, sep: char): (parts: seq<string>)
    ensures |parts| >= 1
    ensures forall i :: 0 <= i < |parts| ==> sep !in parts[i]
    ensures Join(parts, sep) == s
    decreases |s|
  {
    if s == [] then [""]
    else
      var rest := Split(s[1..], sep);
      assert s == [s[0]] + s[1..];
      if s[0] == sep then
        assert ([""] + rest)[1..] == rest;
        [""] + rest
      else
        var parts := [[s[0]] + rest[0]] + rest[1..];
        assert parts[1..] == rest[1..];
        assert |rest| > 1 ==> Join(rest, sep) == rest[0] + [sep] + Join(rest[1..], sep);
        parts
  }

  /** A piece without separators splits to itself. */
  lemma {:induction false} SplitPlain(p: string, sep: char)
    requires sep !in p
    ensures Split(p, sep) == [p]
    decreases |p|
  {
    if p != [] {
      SplitPlain(p[1..], sep);
      assert [p[0]] + p[1..] == p;
    }
  }

  /** Splitting stops at the first separator. */
  lemma {:induction false} SplitAtSeparator(p: string, sep: char, tail: string)
    requires sep !in p
    ensures Split(p + [sep] + tail, sep) == [p] + Split(tail, sep)
    decreases |p|
  {
    var s := p + [sep] + tail;
    if p == [] {
      assert s[1..] == tail;
    } else {
      assert s[1..] == p[1..] + [sep] + tail;
      SplitAtSeparator(p[1..], sep, tail);
      assert [p[0]] + p[1..] == p;
    }
  }

  /** Split is the inverse of Join on separator-free pieces. */
  lemma {:induction false} SplitJoin(parts: seq<string>, sep: char)
    requires |parts| >= 1
    requires forall i :: 0 <= i < |parts| ==> sep !in parts[i]
    ensures Split(Join(parts, sep), sep) == parts
  {
    if |parts| == 1 {
      SplitPlain(parts[0], sep);
    } else {
      SplitJoin(parts[1..], sep);
      SplitAtSeparator(parts[0], sep, Join(parts[1..], sep));
      assert [parts[0]] + parts[1..] == parts;
    }
  }

  /** `text LIKE '%keyword%'`, read as a plain case-sensitive substring test. */
  predicate Contains(text: string, keyword: string)
    decreases |text|
  {
    |keyword| <= |text| && (text[..|keyword|] == keyword || (text != [] && Contains(text[1..], keyword)))
  }

  /** `keyword` occurs in `text` starting at position `i`. */
  ghost predicate OccursAt(text: string, keyword: string, i: int)
  {
    0 <= i && i + |keyword| <= |text| && text[i..i + |keyword|] == keyword
  }

  /** Contains holds exactly when the keyword occurs at some position. */
  lemma {:induction false} ContainsIff(text: string, keyword: string)
    ensures Contains(text, keyword) <==> exists i :: OccursAt(text, keyword, i)
    decreases |text|
  {
    if text != [] {
      ContainsIff(text[1..], keyword);
      if Contains(text, keyword) {
        if text[..|keyword|] == keyword {
          assert OccursAt(text, keyword, 0);
        } else {
          var i :| OccursAt(text[1..], keyword, i);
          assert text[1..][i..i + |keyword|] == text[i + 1..i + 1 + |keyword|];
          assert OccursAt(text, keyword, i + 1);
        }
      }
      if exists i :: OccursAt(text, keyword, i) {
        var i :| OccursAt(text, keyword, i);
        if i > 0 {
          assert text[1..][i - 1..i - 1 + |keyword|] == text[i..i + |keyword|];
          assert OccursAt(text[1..], keyword, i - 1);
        }
      }
    } else {
      if exists i :: OccursAt(text, keyword, i) {
        var i :| OccursAt(text, keyword, i);
        assert keyword == [];
      }
      if Contains(text, keyword) {
        assert OccursAt(text, keyword, 0);
      }
    }
  }
}
