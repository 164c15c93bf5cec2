// The values of the datastore.
module DataTypes {

  /** A variable name, split at its colons: a base followed by override components. */
  type Name = seq<string>

  /** An element of `overridedata[v]`: the qualified name r and its override part o, with r = v:o. */
  datatype Entry = Entry(r: Name, o: seq<string>)

  /** A value is text in which `${name}` occurrences are single tokens. */
  datatype Tok = Ch(c: char) | Ref(n: Name)
  type Text = seq<Tok>

  /** The flags that hold text; a variable's value is its `_content` flag. */
  datatype Flag = Content | DefaultVal | Other(name: string)

  /** The flags that hold a list of deferred operations. */
  datatype Keyword = Append | Prepend | Remove

  /** `[value, override]` in such a list; add is the override, split at its colons, [] if absent. */
  datatype Op = Op(text: Text, add: seq<string>)

  /** The dictionary kept for one variable. */
  datatype Flags = Flags(text: map<Flag, Text>, ops: map<Keyword, seq<Op>>)

  const NO_FLAGS := Flags(map[], map[])

  /** What a datastore holds: every visible variable, and the override index `overridedata`. */
  datatype Store = Store(vars: map<Name, Flags>, index: map<Name, seq<Entry>>)

  function FlagsAt(s: Store, n: Name): Flags {
    if n in s.vars then s.vars[n] else NO_FLAGS
  }

  function EntriesAt(s: Store, n: Name): seq<Entry> {
    if n in s.index then s.index[n] else []
  }

  function OpsAt(s: Store, n: Name, k: Keyword): seq<Op> {
    if k in FlagsAt(s, n).ops then FlagsAt(s, n).ops[k] else []
  }

  /** Is a a colon-prefix of b, or b of a? */
  predicate Related(a: Name, b: Name) {
    a <= b || b <= a
  }
}
