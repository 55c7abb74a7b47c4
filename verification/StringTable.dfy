/** getStrtabIndex: an append-only table of NUL-terminated names that reuses suffixes and substrings. */
module StringTable {
  import opened Words

  const NUL: char := '\0'

  predicate OccursAt(table: string, s: string, i: nat) {
    i + |s| <= |table| && table[i..i + |s|] == s
  }

  /** std::string::find: the first occurrence at or after i. */
  function FindFrom(table: string, s: string, i: nat): (p: Option<nat>)
    ensures p.Some? ==> i <= p.value && OccursAt(table, s, p.value)
    ensures forall k :: i <= k < (if p.Some? then p.value else |table| + 1) ==> !OccursAt(table, s, k)
    decreases |table| + 1 - i
  {
    if i > |table| then None
    else if OccursAt(table, s, i) then Some(i)
    else FindFrom(table, s, i + 1)
  }

  /** The name an index stands for: the characters up to the next NUL. */
  function NameAt(table: string, i: nat): string
    decreases |table| - i
  {
    if i >= |table| || table[i] == NUL then [] else [table[i]] + NameAt(table, i + 1)
  }

  predicate Terminated(table: string) {
    table != [] && table[|table| - 1] == NUL
  }

  /** The index of a name and the table afterwards. */
  function Interned(table: string, name: string): (r: (nat, string)) {
    var p := FindFrom(table, name + [NUL], 0);
    if p.Some? then (p.value, table) else (|table|, table + name + [NUL])
  }

  class Strtab {
    var Table: string

    ghost predicate Valid()
      reads this
    {
      Terminated(Table)
    }

    constructor ()
      ensures Valid() && Table == [NUL]
    {
      Table := [NUL];
    }

    /** A name not found is appended and then looked up again.  The position comes back as an int: it is the
        position exactly when that is below 2^31. */
    method GetStrtabIndex(name: string) returns (index: int)
      requires Valid() && NUL !in name
      modifies this
      ensures Valid()
      ensures var (pos, table) := Interned(old(Table), name);
              && Table == table && NameAt(Table, pos) == name
              && index == Low32Signed(pos) && (index == pos <==> pos < 0x8000_0000)
    {
      hide NameAt;
      var sym := name + [NUL];
      var p := FindFrom(Table, sym, 0);
      if p.None? {
        ghost var before := Table;
        Table := Table + sym;
        AppendedFoundAtEnd(before, name);
        p := FindFrom(Table, sym, 0);
        assert before + sym == before + name + [NUL];
      }
      var pos := p.value;
      NameFound(Table, name, pos);
      AsInt(pos);
      index := Low32Signed(pos);
    }
  }

  /** An occurrence of name and NUL is where the name can be read back. */
  lemma {:induction false} NameFound(table: string, name: string, i: nat)
    requires NUL !in name && OccursAt(table, name + [NUL], i)
    ensures NameAt(table, i) == name
  {
    var s := name + [NUL];
    var sub := table[i..i + |s|];
    assert sub[0] == table[i];
    if name != [] {
      assert name[0] in name;
      assert s[1..] == name[1..] + [NUL];
      assert table[i + 1..i + |s|] == sub[1..];
      NameFound(table, name[1..], i + 1);
    } else {
      assert s == [NUL];
    }
  }

  lemma {:induction false} AsInt(pos: nat)
    ensures Low32Signed(pos) == pos <==> pos < 0x8000_0000
  {
  }

  /** No occurrence starts inside the old table: it would lie in the old table, or run over the NUL that
      ends it. */
  lemma {:induction false} NoEarlierOccurrence(table: string, name: string, i: nat)
    requires Terminated(table) && NUL !in name && i < |table|
    requires !OccursAt(table, name + [NUL], i)
    ensures !OccursAt(table + (name + [NUL]), name + [NUL], i)
  {
    var s := name + [NUL];
    var t := table + s;
    if i + |s| <= |table| {
      assert t[i..i + |s|] == table[i..i + |s|];
    } else {
      var k := |table| - 1 - i;
      assert t[i..i + |s|][k] == t[i + k] == NUL;
      assert s[k] == name[k] && name[k] in name;
    }
  }

  /** A name that was not in the table is found exactly where it was appended. */
  lemma {:induction false} AppendedFoundAtEnd(table: string, name: string)
    requires Terminated(table) && NUL !in name
    requires FindFrom(table, name + [NUL], 0).None?
    ensures FindFrom(table + (name + [NUL]), name + [NUL], 0) == Some(|table|)
  {
    var s := name + [NUL];
    var t := table + s;
    assert t[|table|..|table| + |s|] == s;
    assert OccursAt(t, s, |table|);
    forall i | 0 <= i < |table| ensures !OccursAt(t, s, i) {
      NoEarlierOccurrence(table, name, i);
    }
  }

  /** Appending never changes the name behind an index. */
  lemma {:induction false} NamePersists(table: string, more: string, i: nat)
    requires Terminated(table) && i < |table|
    ensures NameAt(table + more, i) == NameAt(table, i)
    decreases |table| - i
  {
    if table[i] != NUL {
      NamePersists(table, more, i + 1);
    }
  }

  /** The table and the indices after a sequence of calls. */
  function InternAll(table: string, names: seq<string>): (seq<nat>, string)
    decreases names
  {
    if names == [] then ([], table)
    else
      var (i, t) := Interned(table, names[0]);
      var (rest, final) := InternAll(t, names[1..]);
      ([i] + rest, final)
  }

  lemma {:induction false} InternOne(table: string, name: string)
    requires Terminated(table) && NUL !in name
    ensures var (i, t) := Interned(table, name);
            && Terminated(t) && i < |t| && NameAt(t, i) == name
            && table <= t && FindFrom(t, name + [NUL], 0) == Some(i)
  {
    var s := name + [NUL];
    var (i, t) := Interned(table, name);
    if FindFrom(table, s, 0).None? {
      AppendedFoundAtEnd(table, name);
      assert t == table + s;
    }
    NameFound(t, name, i);
  }

  /** A name already there leaves the table alone; a new one makes it longer by itself and its NUL. */
  lemma {:induction false} TableGrows(table: string, name: string)
    ensures var t := Interned(table, name).1;
            && table <= t
            && |t| == |table| + (if exists i: nat :: OccursAt(table, name + [NUL], i) then 0 else |name| + 1)
  {
    var p := FindFrom(table, name + [NUL], 0);
    if i: nat :| OccursAt(table, name + [NUL], i) {
      assert p.Some?;
    }
  }

  /** After any sequence of calls every index ever returned still stands for its name. */
  lemma {:induction false} IndicesStayValid(table: string, names: seq<string>)
    requires Terminated(table) && forall n :: n in names ==> NUL !in n
    ensures var (indices, final) := InternAll(table, names);
            && |indices| == |names| && Terminated(final) && table <= final
            && (forall k :: 0 <= k < |names| ==> indices[k] < |final| && NameAt(final, indices[k]) == names[k])
    decreases names
  {
    if names != [] {
      InternOne(table, names[0]);
      var (i, t) := Interned(table, names[0]);
      IndicesStayValid(t, names[1..]);
      var final := InternAll(t, names[1..]).1;
      assert final == t + final[|t|..];
      NamePersists(t, final[|t|..], i);
    }
  }

  /** While the table has at most 2^31 characters, so does every index as the int it is returned as. */
  lemma {:induction false} IntsStayValid(table: string, names: seq<string>, k: nat)
    requires Terminated(table) && (forall n :: n in names ==> NUL !in n) && k < |names|
    requires |InternAll(table, names).1| <= 0x8000_0000
    ensures var (indices, final) := InternAll(table, names);
            && |indices| == |names| && var index := Low32Signed(indices[k]);
            0 <= index < |final| && NameAt(final, index) == names[k]
  {
    hide InternAll, NameAt, Terminated;
    IndicesStayValid(table, names);
    AsInt(InternAll(table, names).0[k]);
  }

  /** The first occurrence stays first when the table grows. */
  lemma {:induction false} FirstStaysFirst(table: string, more: string, s: string, i: nat)
    requires FindFrom(table, s, 0) == Some(i)
    ensures FindFrom(table + more, s, 0) == Some(i)
  {
    var t := table + more;
    assert t[i..i + |s|] == table[i..i + |s|];
    assert OccursAt(t, s, i);
    var j := FindFrom(t, s, 0).value;
    if j < i {
      assert t[j..j + |s|] == table[j..j + |s|];
      assert OccursAt(table, s, j);
    }
  }

  /** The same name gets the same index at any later time. */
  lemma {:induction false} RepeatedNameSameIndex(table: string, name: string, between: seq<string>)
    requires Terminated(table) && NUL !in name && forall n :: n in between ==> NUL !in n
    ensures var (i, t) := Interned(table, name);
            var later := InternAll(t, between).1;
            Interned(later, name) == (i, later)
  {
    InternOne(table, name);
    var (i, t) := Interned(table, name);
    IndicesStayValid(t, between);
    var later := InternAll(t, between).1;
    assert later == t + later[|t|..];
    FirstStaysFirst(t, later[|t|..], name + [NUL], i);
  }
}
