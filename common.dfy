/** Values shared by the server and the three clients: optional and
    fallible results, the JSON values that cross the wire, and sequence
    facts (duplicates, first-occurrence de-duplication, counting). */
module Common {

  datatype Option<+T> = None | Some(value: T) {
    function GetOr(default: T): T {
      match this
      case Some(v) => v
      case None => default
    }
  }

  datatype Result<+T, +E> = Ok(value: T) | Err(error: E)

  /** A decoded JSON value. Numbers are integers here; floating-point
      payloads are not part of this model. */
  datatype Json =
    | JNull
    | JBool(b: bool)
    | JNum(n: int)
    | JStr(s: string)
    | JList(items: seq<Json>)
    | JObj(fields: map<string, Json>)

  /** An input file as a client finds it: absent, a .json file (None when
      it does not decode), or a text file's content. */
  datatype InputFile = MissingFile | JsonFile(parsed: Option<Json>) | TextFile(content: string)

  /** Strings as the JSON strings they are sent and stored as. */
  function JsonStrings(lines: seq<string>): (r: seq<Json>)
    ensures |r| == |lines| && forall k :: 0 <= k < |lines| ==> r[k] == JStr(lines[k])
  {
    seq(|lines|, k requires 0 <= k < |lines| => JStr(lines[k]))
  }

  predicate NoDup<T(==)>(s: seq<T>) {
    forall i, j :: 0 <= i < j < |s| ==> s[i] != s[j]
  }

  /** Number of occurrences of x in s. */
  function Count<T(==)>(s: seq<T>, x: T): (n: nat)
    ensures n <= |s|
    ensures n == 0 <==> x !in s
  {
    if s == [] then 0 else Count(s[..|s| - 1], x) + (if s[|s| - 1] == x then 1 else 0)
  }

  lemma {:induction false} CountNoDup<T>(s: seq<T>, x: T)
    requires NoDup(s) && x in s
    ensures Count(s, x) == 1
  {
    var init := s[..|s| - 1];
    if s[|s| - 1] == x {
      assert x !in init by {
        forall k | 0 <= k < |init| ensures init[k] != x {
          assert s[k] != s[|s| - 1];
        }
      }
    } else {
      assert x in init by {
        var k :| 0 <= k < |s| && s[k] == x;
        assert k < |s| - 1;
        assert init[k] == x;
      }
      CountNoDup(init, x);
    }
  }

  /** The elements of s in order of first occurrence, each once: what a
      Python loop "append if not already present" builds. */
  function Dedup<T(==)>(s: seq<T>): (r: seq<T>)
    ensures NoDup(r)
    ensures forall i :: 0 <= i < |r| ==> r[i] in s
    ensures forall i :: 0 <= i < |s| ==> s[i] in r
    ensures |r| <= |s|
  {
    if s == [] then []
    else
      var d := Dedup(s[..|s| - 1]);
      assert forall i :: 0 <= i < |s| - 1 ==> s[i] == s[..|s| - 1][i];
      if s[|s| - 1] in d then d else d + [s[|s| - 1]]
  }

  lemma {:induction false} DedupOfDistinct<T>(s: seq<T>)
    requires NoDup(s)
    ensures Dedup(s) == s
  {
    if s != [] {
      var init := s[..|s| - 1];
      assert NoDup(init);
      DedupOfDistinct(init);
      assert s[|s| - 1] !in init by {
        forall k | 0 <= k < |init| ensures init[k] != s[|s| - 1] {
          assert s[k] != s[|s| - 1];
        }
      }
      assert init + [s[|s| - 1]] == s;
    }
  }

  lemma {:induction false} DedupShorterWithDuplicate<T>(s: seq<T>)
    requires !NoDup(s)
    ensures |Dedup(s)| < |s|
  {
    var init := s[..|s| - 1];
    var last := s[|s| - 1];
    if NoDup(init) {
      var i, j :| 0 <= i < j < |s| && s[i] == s[j];
      assert j == |s| - 1 by {
        assert forall a, b :: 0 <= a < b < |s| - 1 ==> s[a] != s[b] by {
          forall a, b | 0 <= a < b < |s| - 1 ensures s[a] != s[b] {
            assert init[a] != init[b];
          }
        }
      }
      assert init[i] == last;
      assert last in Dedup(init);
    } else {
      DedupShorterWithDuplicate(init);
    }
  }

  /** Dedup keeps every element exactly when the input has no duplicates. */
  lemma DedupKeepsLength<T>(s: seq<T>)
    ensures |Dedup(s)| == |s| <==> NoDup(s)
  {
    if NoDup(s) { DedupOfDistinct(s); } else { DedupShorterWithDuplicate(s); }
  }
}
