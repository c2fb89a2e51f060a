/**
 * The JavaScript string operations the core relies on: `indexOf`, `split`
 * with a non-empty string separator, `includes`, `startsWith` and ASCII
 * `toLowerCase`.  Strings are `seq<char>`, where a `char` is a Unicode scalar
 * value: a JavaScript string holding a lone surrogate code unit has no
 * counterpart here.
 */
module JsString {
  import opened Wrappers

  /** `sep` occurs in `s` starting at index `i`. */
  predicate OccursAt(s: string, sep: string, i: nat)
  {
    i + |sep| <= |s| && s[i..i + |sep|] == sep
  }

  /** `s.includes(sub)`. */
  predicate Includes(s: string, sub: string)
  {
    exists i: nat | i <= |s| :: OccursAt(s, sub, i)
  }

  /** `s.startsWith(prefix)`. */
  predicate StartsWith(s: string, prefix: string)
  {
    OccursAt(s, prefix, 0)
  }

  /** `s.indexOf(sep)`, with `None` for -1: the leftmost occurrence of `sep`. */
  function IndexOf(s: string, sep: string): (r: Option<nat>)
    ensures r.Some? ==> OccursAt(s, sep, r.value)
    ensures r.Some? ==> forall j: nat | j < r.value :: !OccursAt(s, sep, j)
    ensures r.None? ==> forall j: nat | j <= |s| :: !OccursAt(s, sep, j)
    decreases |s|
  {
    if |s| < |sep| then None
    else if s[..|sep|] == sep then Some(0)
    else
      var rest := IndexOf(s[1..], sep);
      DropFirst(s, sep);
      match rest
      case None => None
      case Some(i) => Some(i + 1)
  }

  /** An occurrence past the end of `a` in `a + b` is an occurrence in `b`. */
  lemma ShiftOccurs(a: string, b: string, sep: string)
    ensures forall j: nat :: OccursAt(a + b, sep, |a| + j) <==> OccursAt(b, sep, j)
  {
    forall j: nat
      ensures OccursAt(a + b, sep, |a| + j) <==> OccursAt(b, sep, j)
    {
      if |a| + j + |sep| <= |a + b| {
        assert (a + b)[|a| + j..|a| + j + |sep|] == b[j..j + |sep|];
      }
    }
  }

  /** `a + b` does not include `sep` when no occurrence starts in `a` and `b` does not include it. */
  lemma NotIncludedAfter(a: string, b: string, sep: string)
    requires forall j: nat | j < |a| :: !OccursAt(a + b, sep, j)
    requires !Includes(b, sep)
    ensures !Includes(a + b, sep)
  {
    ShiftOccurs(a, b, sep);
    forall j: nat | |a| <= j <= |a + b| ensures !OccursAt(a + b, sep, j) {
      var i: nat := j - |a|;
      assert OccursAt(a + b, sep, |a| + i) <==> OccursAt(b, sep, i);
    }
  }

  /** Occurrences in `s[1..]` are the occurrences in `s` one position further on. */
  lemma DropFirst(s: string, sep: string)
    requires |s| >= 1
    ensures forall j: nat | j >= 1 :: OccursAt(s, sep, j) <==> OccursAt(s[1..], sep, j - 1)
  {
    forall j: nat | j >= 1
      ensures OccursAt(s, sep, j) <==> OccursAt(s[1..], sep, j - 1)
    {
      if j + |sep| <= |s| {
        assert s[1..][j - 1..j - 1 + |sep|] == s[j..j + |sep|];
      }
    }
  }

  /** A string of which no position holds the first character of `sep` holds no occurrence of it. */
  lemma NoOccurrenceWithoutHead(s: string, sep: string)
    requires |sep| > 0 && sep[0] !in s
    ensures !Includes(s, sep)
  {
  }

  /** `parts.join(sep)`. */
  function Join(parts: seq<string>, sep: string): string
  {
    if |parts| == 0 then ""
    else if |parts| == 1 then parts[0]
    else parts[0] + sep + Join(parts[1..], sep)
  }

  /**
   * `s.split(sep)` for a non-empty separator: the pieces between the
   * occurrences of `sep` found scanning left to right.  Joining them again
   * with `sep` gives back `s`, and no piece holds `sep`.
   */
  function Split(s: string, sep: string): (parts: seq<string>)
    requires |sep| > 0
    ensures |parts| >= 1
    ensures Join(parts, sep) == s
    ensures forall k | 0 <= k < |parts| :: !Includes(parts[k], sep)
    ensures !Includes(s, sep) ==> parts == [s]
    ensures forall k | 0 <= k < |parts| - 1 :: IndexOf(Join(parts[k..], sep), sep) == Some(|parts[k]|)
    decreases |s|
  {
    match IndexOf(s, sep)
    case None =>
      assert !Includes(s, sep);
      [s]
    case Some(i) =>
      var rest := Split(s[i + |sep|..], sep);
      SplitStep(s, sep, i, rest);
      [s[..i]] + rest
  }

  /** One step of `Split`: the text before the leftmost occurrence, then the pieces of the rest. */
  lemma SplitStep(s: string, sep: string, i: nat, rest: seq<string>)
    requires |sep| > 0 && OccursAt(s, sep, i)
    requires forall j: nat | j < i :: !OccursAt(s, sep, j)
    requires |rest| >= 1 && Join(rest, sep) == s[i + |sep|..]
    requires forall k | 0 <= k < |rest| :: !Includes(rest[k], sep)
    requires forall k | 0 <= k < |rest| - 1 :: IndexOf(Join(rest[k..], sep), sep) == Some(|rest[k]|)
    requires IndexOf(s, sep) == Some(i)
    ensures Includes(s, sep)
    ensures Join([s[..i]] + rest, sep) == s
    ensures forall k | 0 <= k < |[s[..i]] + rest| :: !Includes(([s[..i]] + rest)[k], sep)
    ensures forall k | 0 <= k < |[s[..i]] + rest| - 1 ::
              IndexOf(Join(([s[..i]] + rest)[k..], sep), sep) == Some(|([s[..i]] + rest)[k]|)
  {
    var parts := [s[..i]] + rest;
    PrefixBeforeFirst(s, sep, i);
    JoinCons(s[..i], rest, sep);
    AroundOccurrence(s, sep, i);
    forall k | 0 <= k < |parts| ensures !Includes(parts[k], sep) {
      if k > 0 {
        assert parts[k] == rest[k - 1];
      }
    }
    forall k | 0 <= k < |parts| - 1 ensures IndexOf(Join(parts[k..], sep), sep) == Some(|parts[k]|) {
      if k == 0 {
        assert parts[0..] == parts;
      } else {
        assert parts[k..] == rest[k - 1..];
        assert parts[k] == rest[k - 1];
      }
    }
  }

  lemma JoinCons(first: string, rest: seq<string>, sep: string)
    requires |rest| >= 1
    ensures Join([first] + rest, sep) == first + sep + Join(rest, sep)
  {
    assert ([first] + rest)[1..] == rest;
  }

  /** A string is the text before an occurrence, the occurrence, and the text after it. */
  lemma AroundOccurrence(s: string, sep: string, i: nat)
    requires OccursAt(s, sep, i)
    ensures s == s[..i] + sep + s[i + |sep|..]
  {
    assert s == s[..i] + s[i..i + |sep|] + s[i + |sep|..];
  }

  /** With a separator that overlaps itself, the leftmost occurrence wins: `"aaa".split("aa")` is `["", "a"]`. */
  lemma SplitOverlapping()
    ensures Split("aaa", "aa") == ["", "a"]
  {
    assert IndexOf("aaa", "aa") == Some(0);
    assert IndexOf("a", "aa") == None;
  }

  /** A string in which the one-character string `[c]` does not occur does not hold `c`. */
  lemma AbsentChar(s: string, c: char)
    requires !Includes(s, [c])
    ensures c !in s
  {
    forall k | 0 <= k < |s| ensures s[k] != c {
      assert !OccursAt(s, [c], k);
      assert s[k..k + 1] == [s[k]];
    }
  }

  /** The text before the leftmost occurrence of `sep` holds no occurrence. */
  lemma PrefixBeforeFirst(s: string, sep: string, i: nat)
    requires |sep| > 0 && i <= |s|
    requires forall j: nat | j < i :: !OccursAt(s, sep, j)
    ensures !Includes(s[..i], sep)
  {
    forall j: nat | j <= i ensures !OccursAt(s[..i], sep, j) {
      if OccursAt(s[..i], sep, j) {
        assert s[..i][j..j + |sep|] == s[j..j + |sep|];
        assert OccursAt(s, sep, j);
      }
    }
  }

  /** When `s` holds exactly one occurrence of `sep`, scanning left to right, `s.split(sep)` has two pieces. */
  lemma SplitAtSingleOccurrence(s: string, sep: string, i: nat)
    requires |sep| > 0
    requires OccursAt(s, sep, i)
    requires forall j: nat | j < i :: !OccursAt(s, sep, j)
    requires !Includes(s[i + |sep|..], sep)
    ensures Split(s, sep) == [s[..i], s[i + |sep|..]]
  {
    assert IndexOf(s, sep) == Some(i);
    var after := s[i + |sep|..];
    assert forall j: nat | j <= |after| :: !OccursAt(after, sep, j);
    assert IndexOf(after, sep) == None;
  }

  /** ASCII `toLowerCase` of one character. */
  function ToLowerChar(c: char): char
  {
    if 'A' <= c <= 'Z' then (c as int - 'A' as int + 'a' as int) as char else c
  }

  /** `s.toLowerCase()` for the ASCII range: each character lower-cased on its own. */
  function ToLower(s: string): (r: string)
    ensures |r| == |s|
    ensures forall k | 0 <= k < |r| :: r[k] == ToLowerChar(s[k])
  {
    if s == [] then [] else [ToLowerChar(s[0])] + ToLower(s[1..])
  }
}
