/** What one sample of ebits.py extracts from the target's captured output:
    the address key of the first line that contains the lookup key. */
module MapSampler {
  import opened Text

  datatype Option<T> = None | Some(value: T)

  /** The character `run` splits a matched line on. */
  const Delimiter: char := '-'

  /** The address key of a matched line: `line.split("-")[0]`, specified by FirstField. */
  function AddressKey(line: string): string
  {
    FirstField(line, Delimiter)
  }

  /** Line `i` is the first of `lines` to contain `key`. */
  ghost predicate IsFirstMatch(lines: seq<string>, key: string, i: int)
  {
    0 <= i < |lines| && Contains(lines[i], key) &&
    forall j :: 0 <= j < i ==> !Contains(lines[j], key)
  }

  /** The key one call of `run` inserts, or None when it inserts nothing:
      the scan stops at the first line containing `key`. */
  function FirstMatch(lines: seq<string>, key: string): Option<string>
  {
    if lines == [] then None
    else if Contains(lines[0], key) then Some(AddressKey(lines[0]))
    else FirstMatch(lines[1..], key)
  }

  /** Nothing is extracted exactly when no line contains the key. */
  lemma {:induction false} FirstMatchNone(lines: seq<string>, key: string)
    ensures FirstMatch(lines, key) == None <==>
            forall i :: 0 <= i < |lines| ==> !Contains(lines[i], key)
  {
    if lines != [] && !Contains(lines[0], key) {
      FirstMatchNone(lines[1..], key);
      assert forall i :: 1 <= i < |lines| ==> lines[i] == lines[1..][i - 1];
    }
  }

  /** When line `i` is the first match, the extracted key is that line's address key. */
  lemma {:induction false} FirstMatchAt(lines: seq<string>, key: string, i: int)
    requires IsFirstMatch(lines, key, i)
    ensures FirstMatch(lines, key) == Some(AddressKey(lines[i]))
  {
    if i > 0 {
      assert !Contains(lines[0], key);
      assert IsFirstMatch(lines[1..], key, i - 1) by {
        forall j | 0 <= j < i - 1 ensures !Contains(lines[1..][j], key) {
          assert lines[1..][j] == lines[j + 1];
        }
      }
      FirstMatchAt(lines[1..], key, i - 1);
    }
  }

  /** Conversely, an extracted key always comes from the first matching line. */
  lemma {:induction false} FirstMatchFrom(lines: seq<string>, key: string)
    requires FirstMatch(lines, key).Some?
    ensures exists i :: IsFirstMatch(lines, key, i) &&
                        FirstMatch(lines, key).value == AddressKey(lines[i])
  {
    if Contains(lines[0], key) {
      assert IsFirstMatch(lines, key, 0);
    } else {
      FirstMatchFrom(lines[1..], key);
      var i :| IsFirstMatch(lines[1..], key, i) &&
               FirstMatch(lines[1..], key).value == AddressKey(lines[1..][i]);
      assert IsFirstMatch(lines, key, i + 1) by {
        forall j | 0 <= j < i + 1 ensures !Contains(lines[j], key) {
          if j > 0 { assert lines[j] == lines[1..][j - 1]; }
        }
      }
    }
  }

  /** Lines after the first match are never examined: appending any lines
      to an output that already matches does not change what is extracted. */
  lemma {:induction false} FirstMatchIgnoresLater(lines: seq<string>, rest: seq<string>, key: string)
    requires FirstMatch(lines, key).Some?
    ensures FirstMatch(lines + rest, key) == FirstMatch(lines, key)
  {
    assert (lines + rest)[0] == lines[0];
    if !Contains(lines[0], key) {
      assert (lines + rest)[1..] == lines[1..] + rest;
      FirstMatchIgnoresLater(lines[1..], rest, key);
    }
  }

  /** An extracted key is a `-`-free prefix of some line that contains the lookup key. */
  lemma FirstMatchKeyShape(lines: seq<string>, key: string)
    requires FirstMatch(lines, key).Some?
    ensures exists i :: 0 <= i < |lines| && Contains(lines[i], key) &&
                        FirstMatch(lines, key).value <= lines[i] &&
                        Delimiter !in FirstMatch(lines, key).value
  {
  }

  /** The extraction example: the second line is the first to mention libssl. */
  // The lines are parameters fixed by the requires: stated on literals in the ensures,
  // the solver unfolds Contains on every literal and runs out of resource.
  lemma ExtractionExample(first: string, second: string, third: string, key: string)
    requires first == "aaaa-extra" && second == "bbbb-libssl-loaded" && third == "cccc-other"
    requires key == "libssl"
    ensures FirstMatch([first, second, third], key) == Some("bbbb")
  {
    assert key[0] !in first;
    MissingFirstCharNotContained(first, key);
    assert OccursAt(second, key, 5);
    ContainsIffOccurs(second, key);
    FirstMatchAt([first, second, third], key, 1);
    FirstFieldUnique(second, Delimiter, "bbbb");
  }

  /** A matched line with no `-` still yields a key: the whole line. */
  lemma MatchWithoutDelimiter(lines: seq<string>, key: string, i: int)
    requires IsFirstMatch(lines, key, i) && Delimiter !in lines[i]
    ensures FirstMatch(lines, key) == Some(lines[i])
  {
    FirstMatchAt(lines, key, i);
  }

  /** The output line `libsslloaded` in DSO mode stores `libsslloaded` itself. */
  lemma NoDelimiterExample(line: string, key: string)
    requires line == "libsslloaded" && key == "libssl"
    ensures FirstMatch([line], key) == Some(line)
  {
    assert OccursAt(line, key, 0);
    ContainsIffOccurs(line, key);
    MatchWithoutDelimiter([line], key, 0);
  }
}
