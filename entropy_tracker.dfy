/** The global dictionary `addrs` of ebits.py, used as a set of distinct
    address keys, and `run`, the one operation that inserts into it. */
module EntropyTracker {
  import opened Text
  import opened MapSampler

  /** Every entry of the dictionary maps to True, as `addrs[k] = True` stores. */
  ghost predicate AllTrue(addrs: map<string, bool>)
  {
    forall k :: k in addrs ==> addrs[k]
  }

  /** The dictionary after one call of `run` whose scan found `found`. */
  function Record(addrs: map<string, bool>, found: Option<string>): map<string, bool>
  {
    match found
    case None => addrs
    case Some(k) => addrs[k := true]
  }

  /** A sample whose output had no matching line leaves the dictionary as it was. */
  lemma RecordNothing(addrs: map<string, bool>, lines: seq<string>, key: string)
    requires forall i :: 0 <= i < |lines| ==> !Contains(lines[i], key)
    ensures Record(addrs, FirstMatch(lines, key)) == addrs
  {
  }

  /** One call inserts at most one key, keeps every key, and never shrinks the count. */
  lemma RecordAtMostOne(addrs: map<string, bool>, found: Option<string>)
    ensures addrs.Keys <= Record(addrs, found).Keys
    ensures Record(addrs, found).Keys - addrs.Keys <= if found.Some? then {found.value} else {}
    ensures |addrs| <= |Record(addrs, found)| <= |addrs| + 1
    ensures AllTrue(addrs) ==> AllTrue(Record(addrs, found))
  {
  }

  /** Re-inserting a key already present changes neither the dictionary nor its length. */
  lemma RecordPresent(addrs: map<string, bool>, k: string)
    requires AllTrue(addrs) && k in addrs
    ensures Record(addrs, Some(k)) == addrs
    ensures |Record(addrs, Some(k))| == |addrs|
  {
  }

  /** Inserting a new key adds exactly one to the length. */
  lemma RecordAbsent(addrs: map<string, bool>, k: string)
    requires k !in addrs
    ensures |Record(addrs, Some(k))| == |addrs| + 1
  {
  }

  /** The module-level `addrs = {}` of ebits.py and the functions that touch it. */
  class Tracker {
    var addrs: map<string, bool>

    ghost predicate Valid()
      reads this
    {
      AllTrue(addrs)
    }

    /** `addrs = {}`. */
    constructor ()
      ensures Valid() && addrs == map[]
    {
      addrs := map[];
    }

    /** `len(addrs)`. */
    function Count(): nat
      reads this
    {
      |addrs|
    }

    /** `run(key)` on captured output `output`, already split into lines:
        scan the lines in order, and at the first one containing `key`
        store its field 0 under `-` and stop. */
    method Run(output: seq<string>, key: string)
      requires Valid()
      modifies this
      ensures Valid()
      ensures addrs == Record(old(addrs), FirstMatch(output, key))
      ensures old(Count()) <= Count() <= old(Count()) + 1
    {
      for i := 0 to |output|
        invariant forall j :: 0 <= j < i ==> !Contains(output[j], key)
        invariant addrs == old(addrs)
      {
        var line := output[i];
        if Contains(line, key) {
          var data := Split(line, Delimiter);
          addrs := addrs[data[0] := true];
          FirstMatchAt(output, key, i);
          break;
        }
      }
      FirstMatchNone(output, key);
      RecordAtMostOne(old(addrs), FirstMatch(output, key));
    }
  }
}
