/** The two Python string operations ebits.py relies on: the membership test
    `needle in hay` and `s.split(sep)` with a one-character separator. */
module Text {

  /** `needle` occurs in `hay` starting at index `i`. */
  ghost predicate OccursAt(hay: string, needle: string, i: int)
  {
    0 <= i && i + |needle| <= |hay| && hay[i..i + |needle|] == needle
  }

  /** Python's `needle in hay`: tries each start position from the left.
      The empty needle is in every string, as in Python. */
  predicate Contains(hay: string, needle: string)
    decreases |hay|
  {
    |needle| <= |hay| && (needle <= hay || Contains(hay[1..], needle))
  }

  lemma OccursAtZero(hay: string, needle: string)
    ensures OccursAt(hay, needle, 0) <==> needle <= hay
  {
  }

  lemma OccursAtShift(hay: string, needle: string, i: int)
    requires 1 <= i && hay != []
    ensures OccursAt(hay, needle, i) <==> OccursAt(hay[1..], needle, i - 1)
  {
  }

  /** The executable test agrees with the definition by occurrence, in both directions. */
  lemma {:induction false} ContainsIffOccurs(hay: string, needle: string)
    ensures Contains(hay, needle) <==> exists i :: OccursAt(hay, needle, i)
    decreases |hay|
  {
    OccursAtZero(hay, needle);
    if |needle| <= |hay| && !(needle <= hay) {
      ContainsIffOccurs(hay[1..], needle);
      if Contains(hay[1..], needle) {
        var i :| OccursAt(hay[1..], needle, i);
        OccursAtShift(hay, needle, i + 1);
      } else {
        forall i | OccursAt(hay, needle, i) ensures OccursAt(hay[1..], needle, i - 1) {
          OccursAtShift(hay, needle, i);
        }
      }
    }
  }

  /** A string lacking the needle's first character does not contain it. */
  lemma {:induction false} MissingFirstCharNotContained(hay: string, needle: string)
    requires needle != [] && needle[0] !in hay
    ensures !Contains(hay, needle)
    decreases |hay|
  {
    if hay != [] {
      assert forall c :: c in hay[1..] ==> c in hay;
      MissingFirstCharNotContained(hay[1..], needle);
    }
  }

  /** Python's `s.split(sep)`: the pieces between separators, empty pieces
      included, so there is always at least one field. */
  function Split(s: string, sep: char): (fields: seq<string>)
    ensures |fields| >= 1
    decreases |s|
  {
    if s == [] then [[]]
    else
      var rest := Split(s[1..], sep);
      if s[0] == sep then [[]] + rest
      else [[s[0]] + rest[0]] + rest[1..]
  }

  /** Python's `sep.join(fields)`. */
  function Join(fields: seq<string>, sep: char): string
  {
    if fields == [] then []
    else if |fields| == 1 then fields[0]
    else fields[0] + [sep] + Join(fields[1..], sep)
  }

  /** Splitting loses nothing: joining the fields back gives the string. */
  lemma {:induction false} JoinSplit(s: string, sep: char)
    ensures Join(Split(s, sep), sep) == s
    decreases |s|
  {
    if s != [] {
      var rest := Split(s[1..], sep);
      JoinSplit(s[1..], sep);
      if s[0] == sep {
        assert ([[]] + rest)[1..] == rest;
      } else if |rest| == 1 {
        assert Split(s, sep) == [[s[0]] + rest[0]];
      } else {
        var fields := Split(s, sep);
        assert fields[1..] == rest[1..];
        assert Join(rest, sep) == rest[0] + [sep] + Join(rest[1..], sep);
      }
    }
  }

  /** No field contains the separator. */
  lemma {:induction false} SplitFieldsSeparatorFree(s: string, sep: char)
    ensures forall i :: 0 <= i < |Split(s, sep)| ==> sep !in Split(s, sep)[i]
    decreases |s|
  {
    if s != [] {
      var rest := Split(s[1..], sep);
      SplitFieldsSeparatorFree(s[1..], sep);
      if s[0] != sep {
        var fields := Split(s, sep);
        forall i | 0 <= i < |fields| ensures sep !in fields[i] {
          if i == 0 {
            assert fields[0] == [s[0]] + rest[0];
          } else {
            assert fields[i] == rest[i];
          }
        }
      }
    }
  }

  /** Field 0 of the split is the part of `s` before its first separator. */
  lemma {:induction false} SplitHead(s: string, sep: char)
    ensures Split(s, sep)[0] <= s
    ensures sep !in Split(s, sep)[0]
    ensures |Split(s, sep)[0]| < |s| ==> s[|Split(s, sep)[0]|] == sep
    decreases |s|
  {
    if s != [] && s[0] != sep {
      SplitHead(s[1..], sep);
      var h := Split(s[1..], sep)[0];
      assert Split(s, sep)[0] == [s[0]] + h;
      assert s == [s[0]] + s[1..];
    }
  }

  /** `s.split(sep)[0]`: the longest separator-free prefix of `s`; when `s`
      holds no separator it is the whole of `s`. */
  function FirstField(s: string, sep: char): (f: string)
    ensures f <= s
    ensures sep !in f
    ensures |f| < |s| ==> s[|f|] == sep
    ensures sep !in s ==> f == s
  {
    SplitHead(s, sep);
    Split(s, sep)[0]
  }

  /** The three properties in FirstField's contract determine its result. */
  lemma FirstFieldUnique(s: string, sep: char, g: string)
    requires g <= s && sep !in g
    requires |g| < |s| ==> s[|g|] == sep
    ensures g == FirstField(s, sep)
  {
  }
}
