// The Python string and dictionary operations that the datastore relies on.
module PyStrings {

  ghost function SeqSet<T>(s: seq<T>): set<T> {
    set x | x in s
  }

  ghost predicate Distinct<T>(s: seq<T>) {
    forall i, j :: 0 <= i < j < |s| ==> s[i] != s[j]
  }

  /** The list after `list.remove(x)`, an absent x being tolerated. */
  function WithoutFirst<T(==)>(s: seq<T>, x: T): seq<T> {
    if s == [] then []
    else if s[0] == x then s[1..]
    else [s[0]] + WithoutFirst(s[1..], x)
  }

  predicate EndsWith(s: string, t: string) {
    |t| <= |s| && s[|s| - |t|..] == t
  }

  predicate StartsWith(s: string, t: string) {
    |t| <= |s| && s[..|t|] == t
  }

  lemma EndsWithAt(s: string, t: string, i: nat)
    requires EndsWith(s, t) && i < |t|
    ensures s[|s| - |t| + i] == t[i]
  {
    assert s[|s| - |t|..][i] == t[i];
  }

  lemma EndsWithBehind(c: string, s: string, t: string)
    requires |t| <= |s|
    ensures EndsWith(c + s, t) <==> EndsWith(s, t)
  {
    assert (c + s)[|c + s| - |t|..] == s[|s| - |t|..];
  }

  /** `s.replace(p, "")`: every non-overlapping occurrence of p, found from the left, goes. */
  function Erase(s: string, p: string): (r: string)
    requires p != ""
    ensures |r| <= |s|
  {
    if s == "" then ""
    else if StartsWith(s, p) then Erase(s[|p|..], p)
    else [s[0]] + Erase(s[1..], p)
  }

  /** Erasing a pattern that does occur makes the string shorter. */
  lemma {:induction false} EraseShortens(s: string, p: string)
    requires p != "" && EndsWith(s, p)
    ensures |Erase(s, p)| < |s|
  {
    if StartsWith(s, p) {
    } else {
      assert |s| > |p|;
      assert s[1..][|s[1..]| - |p|..] == s[|s| - |p|..];
      EraseShortens(s[1..], p);
    }
  }

  /** `":".join(parts)` */
  function Join(parts: seq<string>): string {
    if parts == [] then ""
    else if |parts| == 1 then parts[0]
    else parts[0] + ":" + Join(parts[1..])
  }

  /** There is one colon between any two neighbours, and nothing else. */
  lemma {:induction false} JoinAppend(a: seq<string>, b: seq<string>)
    requires a != [] && b != []
    ensures Join(a + b) == Join(a) + (":" + Join(b))
    ensures Join([a[0]]) == a[0]
  {
    assert (a + b)[1..] == a[1..] + b;
    if |a| == 1 {
      assert (a + b)[1..] == b && a[0] + ":" + Join(b) == a[0] + (":" + Join(b));
    } else {
      JoinAppend(a[1..], b);
      assert a[0] + ":" + (Join(a[1..]) + (":" + Join(b))) == a[0] + ":" + Join(a[1..]) + (":" + Join(b));
    }
  }

  /** `s.split(":")`: always at least one piece. */
  function Split(s: string): (r: seq<string>)
    ensures r != []
  {
    if s == "" then [""]
    else if s[0] == ':' then [""] + Split(s[1..])
    else
      var rest := Split(s[1..]);
      [[s[0]] + rest[0]] + rest[1..]
  }

  ghost predicate ColonFree(s: string) {
    forall i :: 0 <= i < |s| ==> s[i] != ':'
  }

  ghost predicate AllColonFree(parts: seq<string>) {
    forall c :: c in parts ==> ColonFree(c)
  }

  /** A pattern that starts with a colon cannot reach back into colon-free text. */
  lemma NotEndsBeyond(c: string, s: string, t: string)
    requires ColonFree(c) && |t| > |s| && t[0] == ':'
    ensures !EndsWith(c + s, t)
  {
    var n := |c + s| - |t|;
    if 0 <= n {
      assert (c + s)[n..][0] == c[n];
    }
  }

  /** No piece of a split contains the separator. */
  lemma {:induction false} SplitColonFree(s: string)
    ensures AllColonFree(Split(s))
  {
    if s != "" {
      SplitColonFree(s[1..]);
      var rest := Split(s[1..]);
      forall c | c in Split(s) ensures ColonFree(c) {
        if s[0] == ':' {
          assert c == "" || c in rest;
        } else {
          assert c == [s[0]] + rest[0] || c in rest[1..];
          assert rest[0] in rest;
        }
      }
    }
  }

  /** Splitting undoes joining, for pieces that do not contain the separator. */
  lemma {:induction false} SplitJoin(parts: seq<string>)
    requires parts != [] && AllColonFree(parts)
    ensures Split(Join(parts)) == parts
  {
    SplitHead(parts[0], if |parts| == 1 then "" else ":" + Join(parts[1..]));
    if |parts| == 1 {
      assert parts[0] + "" == parts[0];
      assert parts == [parts[0]];
    } else {
      assert Join(parts) == parts[0] + (":" + Join(parts[1..]));
      SplitJoin(parts[1..]);
      assert (":" + Join(parts[1..]))[1..] == Join(parts[1..]);
      assert parts == [parts[0]] + parts[1..];
    }
  }

  lemma {:induction false} SplitHead(head: string, tail: string)
    requires ColonFree(head)
    requires tail == "" || tail[0] == ':'
    ensures Split(head + tail) == [head] + Split(tail)[1..]
  {
    if head == "" {
      assert head + tail == tail;
    } else {
      assert (head + tail)[1..] == head[1..] + tail;
      assert head == [head[0]] + head[1..];
      SplitHead(head[1..], tail);
    }
  }
}

// A Python dict with string keys, which remembers insertion order.
module PyDicts {
  import opened PyStrings

  datatype Dict<V> = Dict(keys: seq<string>, vals: map<string, V>) {
    ghost predicate Valid() {
      Distinct(keys) && SeqSet(keys) == vals.Keys
    }

    /** `d[k] = v`: an existing key keeps its place. */
    function Put(k: string, v: V): (d: Dict<V>)
      requires Valid()
      ensures d.Valid()
      ensures d.vals == vals[k := v]
      ensures TotalLength(d.keys) <= TotalLength(keys) + |k|
    {
      if k in keys then Dict(keys, vals[k := v])
      else
        TotalLengthAppend(keys, [k]);
        Dict(keys + [k], vals[k := v])
    }

    /** `del d[k]` */
    function Del(k: string): (d: Dict<V>)
      requires Valid() && k in vals
      ensures d.Valid()
      ensures d.vals == vals - {k}
      ensures TotalLength(d.keys) == TotalLength(keys) - |k|
    {
      WithoutMembers(keys, k);
      Dict(WithoutFirst(keys, k), vals - {k})
    }
  }

  ghost function TotalLength(keys: seq<string>): nat {
    if keys == [] then 0 else |keys[0]| + TotalLength(keys[1..])
  }

  lemma {:induction false} TotalLengthAppend(a: seq<string>, b: seq<string>)
    ensures TotalLength(a + b) == TotalLength(a) + TotalLength(b)
  {
    if a == [] {
      assert a + b == b;
    } else {
      assert (a + b)[1..] == a[1..] + b;
      TotalLengthAppend(a[1..], b);
    }
  }

  lemma {:induction false} WithoutMembers(keys: seq<string>, k: string)
    requires Distinct(keys) && k in keys
    ensures Distinct(WithoutFirst(keys, k))
    ensures SeqSet(WithoutFirst(keys, k)) == SeqSet(keys) - {k}
    ensures TotalLength(WithoutFirst(keys, k)) == TotalLength(keys) - |k|
  {
    assert keys == [keys[0]] + keys[1..];
    if keys[0] == k {
      assert k !in keys[1..];
    } else {
      var rest := WithoutFirst(keys[1..], k);
      WithoutMembers(keys[1..], k);
      assert SeqSet(keys) == {keys[0]} + SeqSet(keys[1..]);
      assert SeqSet([keys[0]] + rest) == {keys[0]} + SeqSet(rest);
      assert forall i :: 0 <= i < |rest| ==> rest[i] in SeqSet(rest);
    }
  }
}
