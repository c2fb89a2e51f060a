/**
 * The browser's cookie jar as the client script sees it: `document.cookie`
 * lists the cookies that are not `httpOnly` as `name=value` pairs joined by
 * "; ".  The lemmas here say where the text "; <name>=" can occur in that
 * string, which is what `getCookie` looks for.
 */
module Browser {
  import opened Wrappers
  import opened JsString
  import opened Http

  datatype StoredCookie = StoredCookie(name: string, value: string, httpOnly: bool)

  /** Cookie names hold neither ';' nor '='; values hold no ';'. */
  predicate WellFormed(c: StoredCookie)
  {
    ';' !in c.name && '=' !in c.name && ';' !in c.value
  }

  predicate AllWellFormed(jar: seq<StoredCookie>)
  {
    forall k | 0 <= k < |jar| :: WellFormed(jar[k])
  }

  /** No cookie is called `name`. */
  predicate NameAbsent(cs: seq<StoredCookie>, name: string)
  {
    forall k | 0 <= k < |cs| :: cs[k].name != name
  }

  /** No two cookies share a name. */
  predicate UniqueNames(cs: seq<StoredCookie>)
  {
    forall i, j | 0 <= i < j < |cs| :: cs[i].name != cs[j].name
  }

  /** What a list's first cookie and the rest inherit from it. */
  lemma Uncons(cs: seq<StoredCookie>, name: string)
    requires cs != []
    ensures AllWellFormed(cs) ==> WellFormed(cs[0]) && AllWellFormed(cs[1..])
    ensures NameAbsent(cs, name) ==> cs[0].name != name && NameAbsent(cs[1..], name)
    ensures UniqueNames(cs) ==> UniqueNames(cs[1..]) && NameAbsent(cs[1..], cs[0].name)
  {
    if UniqueNames(cs) {
      forall k | 0 <= k < |cs[1..]| ensures cs[1..][k].name != cs[0].name {
        assert cs[1..][k] == cs[k + 1];
      }
    }
  }

  /** What a list gets from a first cookie and a rest. */
  lemma Cons(x: StoredCookie, rest: seq<StoredCookie>, name: string)
    ensures WellFormed(x) && AllWellFormed(rest) ==> AllWellFormed([x] + rest)
    ensures x.name != name && NameAbsent(rest, name) ==> NameAbsent([x] + rest, name)
    ensures UniqueNames(rest) && NameAbsent(rest, x.name) ==> UniqueNames([x] + rest)
  {
    var r := [x] + rest;
    assert forall k | 1 <= k < |r| :: r[k] == rest[k - 1];
  }

  /** What a list gets from a last cookie. */
  lemma Snoc(rest: seq<StoredCookie>, x: StoredCookie)
    ensures WellFormed(x) && AllWellFormed(rest) ==> AllWellFormed(rest + [x])
    ensures UniqueNames(rest) && NameAbsent(rest, x.name) ==> UniqueNames(rest + [x])
  {
    var r := rest + [x];
    assert forall k | 0 <= k < |rest| :: r[k] == rest[k];
  }

  /** The cookies a script may read. */
  function Visible(jar: seq<StoredCookie>): (r: seq<StoredCookie>)
    ensures forall k | 0 <= k < |r| :: !r[k].httpOnly
  {
    if jar == [] then []
    else if jar[0].httpOnly then Visible(jar[1..])
    else [jar[0]] + Visible(jar[1..])
  }

  /** The visible cookies keep the jar's well-formedness, an absent name, and unique names. */
  lemma {:induction false} VisibleKeeps(jar: seq<StoredCookie>, name: string)
    ensures AllWellFormed(jar) ==> AllWellFormed(Visible(jar))
    ensures NameAbsent(jar, name) ==> NameAbsent(Visible(jar), name)
    ensures UniqueNames(jar) ==> UniqueNames(Visible(jar))
  {
    if jar != [] {
      var x, rest := jar[0], jar[1..];
      Uncons(jar, name);
      VisibleKeeps(rest, name);
      VisibleKeeps(rest, x.name);
      if !x.httpOnly {
        Cons(x, Visible(rest), name);
      }
    }
  }

  lemma VisibleCons(x: StoredCookie, rest: seq<StoredCookie>)
    ensures Visible([x] + rest) == (if x.httpOnly then [] else [x]) + Visible(rest)
  {
    assert ([x] + rest)[1..] == rest;
  }

  lemma {:induction false} VisibleAppend(a: seq<StoredCookie>, b: seq<StoredCookie>)
    ensures Visible(a + b) == Visible(a) + Visible(b)
  {
    if a == [] {
      assert a + b == b;
    } else {
      var x, a' := a[0], a[1..];
      assert a == [x] + a';
      assert a + b == [x] + (a' + b);
      VisibleAppend(a', b);
      VisibleCons(x, a' + b);
      VisibleCons(x, a');
    }
  }

  /** The jar without the cookies called `name`. */
  function Without(jar: seq<StoredCookie>, name: string): (r: seq<StoredCookie>)
    ensures NameAbsent(r, name)
  {
    if jar == [] then []
    else if jar[0].name == name then Without(jar[1..], name)
    else [jar[0]] + Without(jar[1..], name)
  }

  /** Removing cookies keeps the jar's well-formedness, an absent name, and unique names. */
  lemma {:induction false} WithoutKeeps(jar: seq<StoredCookie>, removed: string, name: string)
    ensures AllWellFormed(jar) ==> AllWellFormed(Without(jar, removed))
    ensures NameAbsent(jar, name) ==> NameAbsent(Without(jar, removed), name)
    ensures UniqueNames(jar) ==> UniqueNames(Without(jar, removed))
  {
    if jar != [] {
      var x, rest := jar[0], jar[1..];
      Uncons(jar, name);
      WithoutKeeps(rest, removed, name);
      WithoutKeeps(rest, removed, x.name);
      if x.name != removed {
        Cons(x, Without(rest, removed), name);
      }
    }
  }

  /** The value of the first cookie called `name`, if any. */
  function CookieValue(cs: seq<StoredCookie>, name: string): (r: Option<string>)
    ensures r.None? <==> NameAbsent(cs, name)
    ensures forall k | 0 <= k < |cs| && cs[k].name == name && (forall j | 0 <= j < k :: cs[j].name != name) ::
              r == Some(cs[k].value)
  {
    if cs == [] then None
    else if cs[0].name == name then Some(cs[0].value)
    else
      var r := CookieValue(cs[1..], name);
      assert forall k | 1 <= k < |cs| :: cs[k] == cs[1..][k - 1];
      r
  }

  /** Dropping the cookies called `name` leaves the value of every other name as it was. */
  lemma {:induction false} WithoutKeepsOthers(jar: seq<StoredCookie>, name: string, other: string)
    requires other != name
    ensures CookieValue(Without(jar, name), other) == CookieValue(jar, other)
  {
    if jar != [] {
      var x, rest := jar[0], jar[1..];
      WithoutKeepsOthers(rest, name, other);
      if x.name != name {
        assert ([x] + Without(rest, name))[1..] == Without(rest, name);
      }
    }
  }

  /** A cookie added at the end does not change the value of another name. */
  lemma {:induction false} AppendKeepsOthers(cs: seq<StoredCookie>, x: StoredCookie, other: string)
    requires x.name != other
    ensures CookieValue(cs + [x], other) == CookieValue(cs, other)
  {
    if cs != [] {
      assert (cs + [x])[1..] == cs[1..] + [x];
      AppendKeepsOthers(cs[1..], x, other);
    }
  }

  /** The jar after a `Set-Cookie` header: it replaces any cookie of the same name. */
  function Receive(jar: seq<StoredCookie>, c: SetCookie): seq<StoredCookie>
  {
    Without(jar, c.name) + [StoredCookie(c.name, c.value, c.options.httpOnly)]
  }

  /**
   * After a `Set-Cookie`, names stay unique and a script reads the new value,
   * unless the cookie is `httpOnly`, in which case it reads nothing under that name.
   */
  lemma ReceiveThenLookup(jar: seq<StoredCookie>, c: SetCookie)
    requires UniqueNames(jar)
    ensures UniqueNames(Receive(jar, c))
    ensures AllWellFormed(jar) && WellFormed(StoredCookie(c.name, c.value, c.options.httpOnly)) ==> AllWellFormed(Receive(jar, c))
    ensures CookieValue(Visible(Receive(jar, c)), c.name) == if c.options.httpOnly then None else Some(c.value)
  {
    var kept := Without(jar, c.name);
    var added := StoredCookie(c.name, c.value, c.options.httpOnly);
    WithoutKeeps(jar, c.name, c.name);
    Snoc(kept, added);
    VisibleAppend(kept, [added]);
    VisibleCons(added, []);
    assert [added] + [] == [added];
    var v := Visible(kept);
    VisibleKeeps(kept, c.name);
    if !added.httpOnly {
      assert Visible(Receive(jar, c)) == v + [added];
      assert (v + [added])[|v|] == added;
    } else {
      assert Visible(Receive(jar, c)) == v + [];
      assert v + [] == v;
    }
  }

  /** A `Set-Cookie` leaves the value of every other cookie as it was. */
  lemma ReceiveKeepsOthers(jar: seq<StoredCookie>, c: SetCookie, other: string)
    requires other != c.name
    ensures CookieValue(Receive(jar, c), other) == CookieValue(jar, other)
  {
    WithoutKeepsOthers(jar, c.name, other);
    AppendKeepsOthers(Without(jar, c.name), StoredCookie(c.name, c.value, c.options.httpOnly), other);
  }

  function Pair(c: StoredCookie): string
  {
    c.name + "=" + c.value
  }

  /** `name=value` pairs joined by "; ". */
  function Render(cs: seq<StoredCookie>): string
  {
    if |cs| == 0 then ""
    else if |cs| == 1 then Pair(cs[0])
    else Pair(cs[0]) + "; " + Render(cs[1..])
  }

  /** `document.cookie`. */
  function DocumentCookie(jar: seq<StoredCookie>): string
  {
    Render(Visible(jar))
  }

  /** The text `getCookie` splits on. */
  function Separator(name: string): string
  {
    "; " + name + "="
  }

  function Chunk(c: StoredCookie): string
  {
    "; " + Pair(c)
  }

  /** A pair's chunk is the separator of its name followed by its value. */
  lemma ChunkSplits(c: StoredCookie)
    ensures Chunk(c) == Separator(c.name) + c.value
  {
  }

  /** "; " in front of every pair. */
  function Chunks(cs: seq<StoredCookie>): string
  {
    if cs == [] then "" else Chunk(cs[0]) + Chunks(cs[1..])
  }

  lemma {:induction false} RenderAsChunks(cs: seq<StoredCookie>)
    requires cs != []
    ensures "; " + Render(cs) == Chunks(cs)
  {
    if |cs| == 1 {
      assert Chunks(cs[1..]) == "";
    } else {
      RenderAsChunks(cs[1..]);
      assert "; " + Render(cs) == Chunk(cs[0]) + ("; " + Render(cs[1..]));
    }
  }

  lemma {:induction false} ChunksAppend(a: seq<StoredCookie>, b: seq<StoredCookie>)
    ensures Chunks(a + b) == Chunks(a) + Chunks(b)
  {
    if a == [] {
      assert a + b == b;
    } else {
      assert (a + b)[1..] == a[1..] + b;
      ChunksAppend(a[1..], b);
    }
  }

  /** A pair's chunk begins with the separator of `name` exactly when the pair is called `name`. */
  lemma ChunkStart(c: StoredCookie, name: string, tail: string)
    requires WellFormed(c) && '=' !in name
    ensures OccursAt(Chunk(c) + tail, Separator(name), 0) <==> c.name == name
  {
    var s := Chunk(c) + tail;
    var sep := Separator(name);
    if c.name == name {
      assert s == sep + (c.value + tail);
      assert s[..|sep|] == sep;
    } else {
      var n, m := |c.name|, |name|;
      if n < m {
        assert s[2 + n] == '=' && sep[2 + n] == name[n];
      } else if n > m {
        assert s[2 + m] == c.name[m] && sep[2 + m] == '=';
      } else {
        var d :| 0 <= d < n && c.name[d] != name[d];
        assert s[2 + d] == c.name[d] && sep[2 + d] == name[d];
      }
    }
  }

  /** Inside a chunk, only its first character is a ';'. */
  lemma ChunkBody(c: StoredCookie, tail: string)
    requires WellFormed(c)
    ensures forall j | 0 < j < |Chunk(c)| :: (Chunk(c) + tail)[j] != ';'
  {
    var s := Chunk(c) + tail;
    forall j | 0 < j < |Chunk(c)| ensures s[j] != ';' {
      assert s[j] == Chunk(c)[j];
      if j >= 2 + |c.name| + 1 {
        assert Chunk(c)[j] == c.value[j - 3 - |c.name|];
      } else if j >= 2 && j < 2 + |c.name| {
        assert Chunk(c)[j] == c.name[j - 2];
      }
    }
  }

  /** When no pair is called `name`, its separator occurs nowhere inside their chunks, whatever follows. */
  lemma {:induction false} NoSeparatorWithin(cs: seq<StoredCookie>, name: string, tail: string)
    requires AllWellFormed(cs) && '=' !in name
    requires forall k | 0 <= k < |cs| :: cs[k].name != name
    ensures forall j: nat | j < |Chunks(cs)| :: !OccursAt(Chunks(cs) + tail, Separator(name), j)
    decreases |cs|
  {
    if cs != [] {
      var c := cs[0];
      var rest := Chunks(cs[1..]) + tail;
      var sep := Separator(name);
      assert Chunks(cs) + tail == Chunk(c) + rest;
      NoSeparatorWithin(cs[1..], name, tail);
      ShiftOccurs(Chunk(c), rest, sep);
      ChunkStart(c, name, rest);
      ChunkBody(c, rest);
      forall j: nat | j < |Chunks(cs)| ensures !OccursAt(Chunks(cs) + tail, sep, j) {
        if 0 < j < |Chunk(c)| {
          assert (Chunk(c) + rest)[j] != sep[0];
        } else if j >= |Chunk(c)| {
          assert !OccursAt(rest, sep, j - |Chunk(c)|);
          assert OccursAt(Chunk(c) + rest, sep, |Chunk(c)| + (j - |Chunk(c)|)) <==> OccursAt(rest, sep, j - |Chunk(c)|);
        }
      }
    }
  }

  /** The separator of `name` does not occur in the chunks of pairs none of which is called `name`. */
  lemma NoSeparator(cs: seq<StoredCookie>, name: string)
    requires AllWellFormed(cs) && '=' !in name
    requires forall k | 0 <= k < |cs| :: cs[k].name != name
    ensures !Includes(Chunks(cs), Separator(name))
  {
    NoSeparatorWithin(cs, name, "");
    assert Chunks(cs) + "" == Chunks(cs);
  }
}
