/** The printed LAN policy row by row (tunnel/ctrlhub.go): what separates rows, what a row
    must be, and how one is written. */
module LanRows {
  import opened Common
  import opened Net
  import opened Sorting
  import opened Strings
  import opened LanAllow

  /** A comma and any space end a word alike. */
  lemma {:induction false} SeparatorsAreAlike(a: string, c: char, w: string)
    requires c == ',' || IsSpace(c)
    requires w != "" && forall i :: 0 <= i < |w| ==> w[i] != ',' && !IsSpace(w[i])
    ensures Fields(a + [c] + w) == Fields(a) + [w]
    decreases |a|
  {
    WordAfter(a, c, w);
    if a == [] {
      FieldsOfWord(w);
    } else if IsSeparator(a[0]) {
      SeparatorsAreAlike(a[1..], c, w);
    } else {
      WordEnds(a, [c] + w);
      SeparatorsAreAlike(a[|Word(a)|..], c, w);
    }
  }

  lemma WordAfter(a: string, c: char, w: string)
    ensures a == [] ==> a + [c] + w == [c] + w && ([c] + w)[1..] == w
    ensures a + [c] + w == a + ([c] + w)
    ensures forall n: nat :: n <= |a| ==> (a + [c] + w)[n..] == a[n..] + [c] + w
  {
    forall n: nat | n <= |a|
      ensures (a + [c] + w)[n..] == a[n..] + [c] + w
    {
    }
  }

  /** The row is a key that is not blank, "=", and nothing or a prefix that parses. */
  ghost predicate IsRow(p: Printer, row: string) {
    exists key, value ::
      && '=' !in key && row == key + "=" + value && TrimSpace(key) != ""
      && (TrimSpace(value) == "" || p.parse(TrimSpace(value)).Some?)
  }

  lemma RowIsTaken(p: Printer, rows: Policy, row: string)
    ensures AddRow(p, rows, row).Some? <==> IsRow(p, row)
  {
    CutFinds(row);
    if IsRow(p, row) {
      var key, value :|
        && '=' !in key && row == key + "=" + value && TrimSpace(key) != ""
        && (TrimSpace(value) == "" || p.parse(TrimSpace(value)).Some?);
      CutAtEquals(key, value);
    }
  }

  ghost predicate AllRows(p: Printer, rs: seq<string>) {
    forall i :: 0 <= i < |rs| ==> IsRow(p, rs[i])
  }

  lemma OneMoreRow(p: Printer, rs: seq<string>)
    requires rs != []
    ensures AllRows(p, rs) <==> AllRows(p, rs[..|rs| - 1]) && IsRow(p, rs[|rs| - 1])
  {
    var init := rs[..|rs| - 1];
    if AllRows(p, init) && IsRow(p, rs[|rs| - 1]) {
      forall i | 0 <= i < |rs|
        ensures IsRow(p, rs[i])
      {
        assert i < |init| ==> rs[i] == init[i];
      }
    }
    if AllRows(p, rs) {
      forall i | 0 <= i < |init|
        ensures IsRow(p, init[i])
      {
        assert init[i] == rs[i];
      }
    }
  }

  lemma {:induction false} RowsAreTaken(p: Printer, rs: seq<string>)
    ensures AddRows(p, map[], rs).Some? <==> AllRows(p, rs)
  {
    if rs != [] {
      OneMoreRow(p, rs);
      RowsAreTaken(p, rs[..|rs| - 1]);
      if AddRows(p, map[], rs[..|rs| - 1]).Some? {
        RowIsTaken(p, AddRows(p, map[], rs[..|rs| - 1]).value, rs[|rs| - 1]);
      }
    }
  }

  /** A text is a policy exactly when every word of it is such a row: one bad row refuses
      the whole. */
  lemma OneBadRowRefusesAll(p: Printer, spec: string)
    ensures Parse(p, spec).Some? <==> AllRows(p, Fields(spec))
  {
    RowsAreTaken(p, Fields(spec));
  }

  /** A key with no prefix is written "key=", with one "key=prefix", and with another one
      more row after a space. */
  lemma RowsAsWritten(p: Printer, key: string, x: Prefix, y: Prefix)
    ensures Format(p, map[key := []], [key]) == key + "="
    ensures Format(p, map[key := [x]], [key]) == key + "=" + p.show(x)
    ensures Format(p, map[key := [x, y]], [key]) == key + "=" + p.show(x) + " " + key + "=" + p.show(y)
  {
    assert [key][1..] == [];
    assert Sort(Before, [key]) == [key];
    OneKey(p, map[key := []], key);
    OneKey(p, map[key := [x]], key);
    OneKey(p, map[key := [x, y]], key);
    assert [x][..0] == [] && [x, y][..1] == [x];
    var rx, ry := key + "=" + p.show(x), key + "=" + p.show(y);
    assert PrefixRows(p, key, [x]) == [rx];
    assert PrefixRows(p, key, [x, y]) == [rx, ry];
    JoinedRows(key + "=", ry);
    JoinedRows(rx, ry);
  }

  lemma OneKey(p: Printer, rows: Policy, key: string)
    requires key in rows
    ensures RowsOf(p, rows, [key]) == KeyRows(p, key, rows[key])
  {
    assert [key][..0] == [];
    assert RowsOf(p, rows, []) == [];
  }

  lemma JoinedRows(a: string, b: string)
    requires a != ""
    ensures Joined([a]) == a && Joined([a, b]) == a + " " + b
  {
    assert [a][..0] == [] && [a, b][..1] == [a];
  }
}
