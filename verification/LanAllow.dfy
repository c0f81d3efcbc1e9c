/** The lan_allow policy in its config form (tunnel/ctrlhub.go): printed from a map, parsed
    back into one. */
module LanAllow {
  import opened Common
  import opened Net
  import opened Sorting
  import opened Strings

  type Policy = map<string, seq<Prefix>>

  predicate IsSeparator(c: char) {
    c == ',' || IsSpace(c)
  }

  predicate Free(s: string) {
    forall i :: 0 <= i < |s| ==> !IsSeparator(s[i])
  }

  /** How prefixes are written: any way that parsing undoes, without separators. */
  datatype Printer = Printer(show: Prefix -> string, parse: string -> Option<Prefix>)

  ghost predicate Sound(p: Printer) {
    && (forall x: Prefix :: x.Valid() ==> p.parse(p.show(x)) == Some(x) && p.show(x) != "" && Free(p.show(x)))
    && (forall s :: p.parse(s).Some? ==> p.parse(s).value.Valid())
  }

  // ---- strings

  /** The longest part at the head without a separator. */
  function Word(s: string): (w: string)
    ensures |w| <= |s| && w == s[..|w|] && Free(w)
    ensures |w| < |s| ==> IsSeparator(s[|w|])
  {
    if s == [] || IsSeparator(s[0]) then []
    else
      var w := Word(s[1..]);
      assert ([s[0]] + w) == s[..|w| + 1];
      [s[0]] + w
  }

  /** strings.FieldsFunc: the words between the separators. */
  function Fields(s: string): seq<string>
    decreases |s|
  {
    if s == [] then []
    else if IsSeparator(s[0]) then Fields(s[1..])
    else [Word(s)] + Fields(s[|Word(s)|..])
  }

  /** strings.Cut at the first '='. */
  function CutEquals(s: string): Option<(string, string)> {
    if s == [] then None
    else if s[0] == '=' then Some(([], s[1..]))
    else
      match CutEquals(s[1..])
      case None => None
      case Some((key, value)) => Some(([s[0]] + key, value))
  }

  // ---- Printing

  /** The rows of one key; one without a value when it has no prefix. */
  function KeyRows(p: Printer, key: string, ps: seq<Prefix>): seq<string> {
    if ps == [] then [key + "="] else PrefixRows(p, key, ps)
  }

  function PrefixRows(p: Printer, key: string, ps: seq<Prefix>): (rs: seq<string>)
    ensures |rs| == |ps|
  {
    if ps == [] then [] else PrefixRows(p, key, ps[..|ps| - 1]) + [key + "=" + p.show(ps[|ps| - 1])]
  }

  function RowsOf(p: Printer, rows: Policy, keys: seq<string>): seq<string>
    requires forall k :: k in keys ==> k in rows
  {
    if keys == [] then []
    else RowsOf(p, rows, keys[..|keys| - 1]) + KeyRows(p, keys[|keys| - 1], rows[keys[|keys| - 1]])
  }

  /** The rows one after the other, a space between any two. */
  function Joined(rs: seq<string>): string {
    if rs == [] then []
    else Joined(rs[..|rs| - 1]) + (if Joined(rs[..|rs| - 1]) == [] then [] else " ") + rs[|rs| - 1]
  }

  /** The keys of the policy, each once, in whatever order the map gives them. */
  ghost predicate Enumerates(keys: seq<string>, rows: Policy) {
    Distinct(keys) && forall k :: k in keys <==> k in rows
  }

  ghost function Format(p: Printer, rows: Policy, keys: seq<string>): string
    requires Enumerates(keys, rows)
  {
    SameElems(keys, Sort(Before, keys));
    Joined(RowsOf(p, rows, Sort(Before, keys)))
  }

  // ---- Parsing

  /** One row is taken into the policy, or refused. */
  function AddRow(p: Printer, rows: Policy, row: string): Option<Policy> {
    match CutEquals(row)
    case None => None
    case Some((k, v)) =>
      var key, value := TrimSpace(k), TrimSpace(v);
      if key == "" then None
      else
        var seen := if key in rows then rows else rows[key := []];
        if value == "" then Some(seen)
        else
          match p.parse(value)
          case None => None
          case Some(prefix) => Some(seen[key := seen[key] + [prefix.Masked()]])
  }

  function AddRows(p: Printer, rows: Policy, rs: seq<string>): Option<Policy> {
    if rs == [] then Some(rows)
    else
      match AddRows(p, rows, rs[..|rs| - 1])
      case None => None
      case Some(m) => AddRow(p, m, rs[|rs| - 1])
  }

  function Parse(p: Printer, spec: string): Option<Policy> {
    AddRows(p, map[], Fields(spec))
  }

  // ---- The round trip

  predicate GoodKey(key: string) {
    key != "" && Free(key) && '=' !in key
  }

  /** A policy that can be written: keys that are single words without '=', and masked
      prefixes. */
  predicate Writable(rows: Policy) {
    forall k :: k in rows ==> GoodKey(k) && forall i :: 0 <= i < |rows[k]| ==> Settled(rows[k][i])
  }

  predicate Settled(x: Prefix) {
    x.Valid() && x.IsMasked()
  }

  lemma {:induction false} WordEnds(a: string, rest: string)
    requires rest != [] && IsSeparator(rest[0])
    ensures Word(a + rest) == Word(a)
  {
    if a != [] && !IsSeparator(a[0]) {
      WordEnds(a[1..], rest);
      assert (a + rest)[1..] == a[1..] + rest;
    }
  }

  lemma {:induction false} WordOfFree(w: string)
    requires Free(w)
    ensures Word(w) == w
  {
    if w != [] {
      WordOfFree(w[1..]);
      assert [w[0]] + w[1..] == w;
    }
  }

  lemma FieldsOfWord(w: string)
    requires w != "" && Free(w)
    ensures Fields(w) == [w] && Fields(" " + w) == [w]
  {
    WordOfFree(w);
    assert w[|w|..] == [];
    assert (" " + w)[1..] == w;
  }

  lemma {:induction false} FieldsAppend(a: string, w: string)
    requires w != "" && Free(w)
    ensures Fields(a + (" " + w)) == Fields(a) + [w]
    decreases |a|
  {
    var rest := " " + w;
    if a == [] {
      assert a + rest == rest;
      FieldsOfWord(w);
    } else if IsSeparator(a[0]) {
      assert (a + rest)[1..] == a[1..] + rest;
      FieldsAppend(a[1..], w);
    } else {
      var n := |Word(a)|;
      WordEnds(a, rest);
      assert n > 0;
      assert (a + rest)[n..] == a[n..] + rest;
      FieldsAppend(a[n..], w);
    }
  }

  predicate AllWords(rs: seq<string>) {
    forall i :: 0 <= i < |rs| ==> rs[i] != "" && Free(rs[i])
  }

  /** Words that were joined are found again. */
  lemma {:induction false} FieldsOfJoined(rs: seq<string>)
    requires AllWords(rs)
    ensures Fields(Joined(rs)) == rs
  {
    if rs != [] {
      var n := |rs| - 1;
      var before := Joined(rs[..n]);
      FieldsOfJoined(rs[..n]);
      FieldsOfWord(rs[n]);
      FieldsAppend(before, rs[n]);
      if before == [] {
        assert rs[..n] == [];
        assert before + [] + rs[n] == rs[n];
      } else {
        assert before + " " + rs[n] == before + (" " + rs[n]);
      }
    }
  }

  lemma {:induction false} FieldsAreWords(s: string)
    ensures AllWords(Fields(s))
    decreases |s|
  {
    if s != [] {
      if IsSeparator(s[0]) {
        FieldsAreWords(s[1..]);
      } else {
        FieldsAreWords(s[|Word(s)|..]);
      }
    }
  }

  lemma {:induction false} CutAtEquals(key: string, value: string)
    requires '=' !in key
    ensures CutEquals(key + "=" + value) == Some((key, value))
  {
    var row := key + "=" + value;
    if key == [] {
      assert row == "=" + value;
    } else {
      CutAtEquals(key[1..], value);
      assert row[1..] == key[1..] + "=" + value;
      assert [key[0]] + key[1..] == key;
    }
  }

  lemma {:induction false} CutFinds(row: string)
    ensures CutEquals(row).Some? ==>
      var (key, value) := CutEquals(row).value;
      '=' !in key && row == key + "=" + value
  {
    if row != [] && row[0] != '=' {
      CutFinds(row[1..]);
      assert row == [row[0]] + row[1..];
    }
  }

  lemma TrimFree(s: string)
    requires Free(s)
    ensures TrimSpace(s) == s
  {
    assert s != [] ==> !IsSeparator(s[0]) && !IsSeparator(s[|s| - 1]);
  }

  lemma {:induction false} AddRowsAdd(p: Printer, rows: Policy, a: seq<string>, b: seq<string>)
    ensures AddRows(p, rows, a + b) == match AddRows(p, rows, a) case None => None case Some(m) => AddRows(p, m, b)
  {
    if b == [] {
      assert a + b == a;
    } else {
      AddRowsAdd(p, rows, a, b[..|b| - 1]);
      LastRow(a, b);
    }
  }

  lemma LastRow(a: seq<string>, b: seq<string>)
    requires b != []
    ensures a + b != [] && (a + b)[|a + b| - 1] == b[|b| - 1] && (a + b)[..|a + b| - 1] == a + b[..|b| - 1]
  {
  }

  lemma RowIsWord(p: Printer, key: string, value: string)
    requires GoodKey(key) && Free(value)
    ensures key + "=" + value != "" && Free(key + "=" + value)
    ensures CutEquals(key + "=" + value) == Some((key, value))
    ensures TrimSpace(key) == key && TrimSpace(value) == value
  {
    CutAtEquals(key, value);
    TrimFree(key);
    TrimFree(value);
  }

  /** What soundness says of one prefix. */
  lemma ShownIsRead(p: Printer, x: Prefix)
    requires Sound(p) && Settled(x)
    ensures p.parse(p.show(x)) == Some(x) && p.show(x) != "" && Free(p.show(x)) && x.Masked() == x
  {
    MaskedContains(x, x.addr);
  }

  lemma PrefixRowIsAdded(p: Printer, m: Policy, key: string, x: Prefix)
    requires GoodKey(key) && x.Masked() == x
    requires p.parse(p.show(x)) == Some(x) && p.show(x) != "" && Free(p.show(x))
    ensures AddRow(p, m, key + "=" + p.show(x)) == Some(m[key := (if key in m then m[key] else []) + [x]])
  {
    RowIsWord(p, key, p.show(x));
    assert m[key := []][key := [] + [x]] == m[key := [] + [x]];
  }

  lemma {:induction false} PrefixRowsAreAdded(p: Printer, m: Policy, key: string, ps: seq<Prefix>)
    requires Sound(p) && GoodKey(key) && key !in m && ps != []
    requires forall i :: 0 <= i < |ps| ==> Settled(ps[i])
    ensures AddRows(p, m, PrefixRows(p, key, ps)) == Some(m[key := ps])
    ensures AllWords(PrefixRows(p, key, ps))
  {
    var n := |ps| - 1;
    if n == 0 {
      FirstPrefixIsAdded(p, m, key, ps);
    } else {
      PrefixRowsAreAdded(p, m, key, ps[..n]);
      NextPrefixIsAdded(p, m, key, ps);
    }
  }

  lemma FirstPrefixIsAdded(p: Printer, m: Policy, key: string, ps: seq<Prefix>)
    requires Sound(p) && GoodKey(key) && key !in m && |ps| == 1 && Settled(ps[0])
    ensures AddRows(p, m, PrefixRows(p, key, ps)) == Some(m[key := ps])
    ensures AllWords(PrefixRows(p, key, ps))
  {
    var x := ps[0];
    var none: seq<string> := [];
    ShownIsRead(p, x);
    RowIsWord(p, key, p.show(x));
    PrefixRowIsAdded(p, m, key, x);
    OneMoreRow(p, m, none, key + "=" + p.show(x));
    assert PrefixRows(p, key, ps[..0]) == none;
    assert PrefixRows(p, key, ps) == none + [key + "=" + p.show(x)];
    assert [] + [x] == ps;
  }

  lemma NextPrefixIsAdded(p: Printer, m: Policy, key: string, ps: seq<Prefix>)
    requires Sound(p) && GoodKey(key) && ps != [] && Settled(ps[|ps| - 1])
    requires var before := PrefixRows(p, key, ps[..|ps| - 1]);
      AddRows(p, m, before) == Some(m[key := ps[..|ps| - 1]]) && AllWords(before)
    ensures AddRows(p, m, PrefixRows(p, key, ps)) == Some(m[key := ps])
    ensures AllWords(PrefixRows(p, key, ps))
  {
    var n := |ps| - 1;
    var x, before := ps[n], PrefixRows(p, key, ps[..n]);
    var row := key + "=" + p.show(x);
    LastPrefixIsAdded(p, m, key, ps[..n], x);
    OneMoreRow(p, m, before, row);
    assert ps[..n] + [x] == ps;
    WordsAdd(before, [row]);
  }

  lemma LastPrefixIsAdded(p: Printer, m: Policy, key: string, ps: seq<Prefix>, x: Prefix)
    requires Sound(p) && GoodKey(key) && Settled(x)
    ensures AddRow(p, m[key := ps], key + "=" + p.show(x)) == Some(m[key := ps + [x]])
    ensures AllWords([key + "=" + p.show(x)])
  {
    ShownIsRead(p, x);
    RowIsWord(p, key, p.show(x));
    PrefixRowIsAdded(p, m[key := ps], key, x);
    assert m[key := ps][key := ps + [x]] == m[key := ps + [x]];
  }

  lemma OneMoreRow(p: Printer, m: Policy, rs: seq<string>, row: string)
    requires AddRows(p, m, rs).Some?
    ensures AddRows(p, m, rs + [row]) == AddRow(p, AddRows(p, m, rs).value, row)
  {
    assert (rs + [row])[..|rs|] == rs;
  }

  lemma KeyRowsAreAdded(p: Printer, m: Policy, key: string, ps: seq<Prefix>)
    requires Sound(p) && GoodKey(key) && key !in m
    requires forall i :: 0 <= i < |ps| ==> Settled(ps[i])
    ensures AddRows(p, m, KeyRows(p, key, ps)) == Some(m[key := ps])
    ensures AllWords(KeyRows(p, key, ps))
  {
    if ps == [] {
      RowIsWord(p, key, []);
      assert key + "=" + [] == key + "=";
      var none: seq<string> := [];
      assert [key + "="][..0] == none;
      assert AddRows(p, m, none) == Some(m);
    } else {
      PrefixRowsAreAdded(p, m, key, ps);
    }
  }

  function Restricted(rows: Policy, keys: seq<string>): Policy
    requires forall k :: k in keys ==> k in rows
  {
    map k | k in keys :: rows[k]
  }

  lemma {:induction false} RowsAreAdded(p: Printer, rows: Policy, keys: seq<string>)
    requires Sound(p) && Writable(rows)
    requires Distinct(keys) && forall k :: k in keys ==> k in rows
    ensures AddRows(p, map[], RowsOf(p, rows, keys)) == Some(Restricted(rows, keys))
    ensures AllWords(RowsOf(p, rows, keys))
  {
    if keys == [] {
      assert Restricted(rows, keys) == map[];
    } else {
      var n := |keys| - 1;
      var key := keys[n];
      RowsAreAdded(p, rows, keys[..n]);
      OneMoreKey(rows, keys);
      KeyRowsAreAdded(p, Restricted(rows, keys[..n]), key, rows[key]);
      AddRowsAdd(p, map[], RowsOf(p, rows, keys[..n]), KeyRows(p, key, rows[key]));
      WordsAdd(RowsOf(p, rows, keys[..n]), KeyRows(p, key, rows[key]));
    }
  }

  lemma WordsAdd(a: seq<string>, b: seq<string>)
    requires AllWords(a) && AllWords(b)
    ensures AllWords(a + b)
  {
  }

  lemma OneMoreKey(rows: Policy, keys: seq<string>)
    requires keys != [] && Distinct(keys) && forall k :: k in keys ==> k in rows
    ensures var n := |keys| - 1;
      && keys[n] in rows && keys[n] !in Restricted(rows, keys[..n])
      && Restricted(rows, keys) == Restricted(rows, keys[..n])[keys[n] := rows[keys[n]]]
  {
    var n := |keys| - 1;
    assert keys == keys[..n] + [keys[n]];
    assert keys[n] !in keys[..n];
  }

  // ---- What parsing can give

  lemma PartsAreFree(key: string, value: string, row: string)
    requires row == key + "=" + value && Free(row)
    ensures Free(key) && Free(value)
  {
    assert forall i :: 0 <= i < |key| ==> key[i] == row[i];
    assert forall i :: 0 <= i < |value| ==> value[i] == row[|key| + 1 + i];
  }

  lemma AddedRowIsWritable(p: Printer, m: Policy, row: string)
    requires Sound(p) && Writable(m) && Free(row)
    ensures AddRow(p, m, row).Some? ==> Writable(AddRow(p, m, row).value)
  {
    CutFinds(row);
    if CutEquals(row).Some? {
      var (key, value) := CutEquals(row).value;
      PartsAreFree(key, value, row);
      TrimFree(key);
      TrimFree(value);
    }
  }

  lemma {:induction false} AddedRowsAreWritable(p: Printer, m: Policy, rs: seq<string>)
    requires Sound(p) && Writable(m) && AllWords(rs)
    ensures AddRows(p, m, rs).Some? ==> Writable(AddRows(p, m, rs).value)
  {
    if rs != [] {
      var n := |rs| - 1;
      AddedRowsAreWritable(p, m, rs[..n]);
      if AddRows(p, m, rs[..n]).Some? {
        AddedRowIsWritable(p, AddRows(p, m, rs[..n]).value, rs[n]);
      }
    }
  }

  /** Exactly the policies with single-word keys free of '=' and with masked prefixes come
      back as they were: every key, a key without prefixes too, and the prefixes of each
      in their order, whatever order the map gave its keys in. */
  lemma RoundTrip(p: Printer, rows: Policy, keys: seq<string>)
    requires Sound(p) && Enumerates(keys, rows)
    ensures Parse(p, Format(p, rows, keys)) == Some(rows) <==> Writable(rows)
  {
    var sorted := Sort(Before, keys);
    SameElems(keys, sorted);
    if Writable(rows) {
      WritableComesBack(p, rows, sorted);
    }
    ParsedIsWritable(p, Joined(RowsOf(p, rows, sorted)));
  }

  lemma WritableComesBack(p: Printer, rows: Policy, keys: seq<string>)
    requires Sound(p) && Writable(rows) && Enumerates(keys, rows)
    ensures Parse(p, Joined(RowsOf(p, rows, keys))) == Some(rows)
  {
    RowsAreAdded(p, rows, keys);
    FieldsOfJoined(RowsOf(p, rows, keys));
    assert Restricted(rows, keys) == rows;
  }

  lemma ParsedIsWritable(p: Printer, spec: string)
    requires Sound(p)
    ensures Parse(p, spec).Some? ==> Writable(Parse(p, spec).value)
  {
    FieldsAreWords(spec);
    AddedRowsAreWritable(p, map[], Fields(spec));
  }

  /** The printed form depends on the policy alone. */
  lemma FormatIsCanonical(p: Printer, rows: Policy, keys: seq<string>, others: seq<string>)
    requires Enumerates(keys, rows) && Enumerates(others, rows)
    ensures Format(p, rows, keys) == Format(p, rows, others)
  {
    BeforeIsTotal();
    SameElems(keys, Sort(Before, keys));
    SameElems(others, Sort(Before, others));
    DistinctSortedIsStrict(Before, Sort(Before, keys));
    DistinctSortedIsStrict(Before, Sort(Before, others));
    SortedIsUnique(Before, Sort(Before, keys), Sort(Before, others));
  }

  // ---- The program

  /** The text is that of any order the map may give its keys in. */
  method FormatLanAllow(p: Printer, rows: Policy) returns (text: string)
    ensures forall order :: Enumerates(order, rows) ==> text == Format(p, rows, order)
  {
    var keys := Keys(rows);
    SameElems(keys, Sort(Before, keys));
    text := AppendKeys(p, rows, Sort(Before, keys));
    forall order | Enumerates(order, rows) ensures text == Format(p, rows, order) {
      FormatIsCanonical(p, rows, keys, order);
    }
  }

  method AppendKeys(p: Printer, rows: Policy, keys: seq<string>) returns (text: string)
    requires forall k :: k in keys ==> k in rows
    ensures text == Joined(RowsOf(p, rows, keys))
  {
    text := "";
    var i := 0;
    while i < |keys|
      invariant 0 <= i <= |keys|
      invariant text == Joined(RowsOf(p, rows, keys[..i]))
    {
      RowsOfNext(p, rows, keys, i);
      text := AppendKey(p, text, keys[i], rows[keys[i]], RowsOf(p, rows, keys[..i]));
      i := i + 1;
    }
    assert keys[..i] == keys;
  }

  lemma RowsOfNext(p: Printer, rows: Policy, keys: seq<string>, i: nat)
    requires i < |keys| && forall k :: k in keys ==> k in rows
    ensures RowsOf(p, rows, keys[..i + 1]) == RowsOf(p, rows, keys[..i]) + KeyRows(p, keys[i], rows[keys[i]])
  {
    assert keys[..i + 1][..i] == keys[..i];
  }

  method AppendKey(p: Printer, before: string, key: string, ps: seq<Prefix>, ghost rs: seq<string>) returns (text: string)
    requires before == Joined(rs)
    ensures text == Joined(rs + KeyRows(p, key, ps))
  {
    text := before;
    if |ps| == 0 {
      JoinedMore(rs, key + "=");
      text := AppendRow(text, key + "=");
      return;
    }
    var i := 0;
    assert rs + [] == rs;
    while i < |ps|
      invariant 0 <= i <= |ps|
      invariant text == Joined(rs + PrefixRows(p, key, ps[..i]))
    {
      var row := key + "=" + p.show(ps[i]);
      assert ps[..i + 1][..i] == ps[..i];
      JoinedMore(rs + PrefixRows(p, key, ps[..i]), row);
      assert rs + PrefixRows(p, key, ps[..i + 1]) == (rs + PrefixRows(p, key, ps[..i])) + [row];
      text := AppendRow(text, row);
      i := i + 1;
    }
    assert ps[..i] == ps;
  }

  method AppendRow(before: string, row: string) returns (text: string)
    ensures text == before + (if before == [] then [] else " ") + row
  {
    text := before;
    if |text| > 0 {
      text := text + " ";
    }
    text := text + row;
  }

  lemma JoinedMore(rs: seq<string>, row: string)
    ensures Joined(rs + [row]) == Joined(rs) + (if Joined(rs) == [] then [] else " ") + row
  {
    assert (rs + [row])[..|rs|] == rs;
  }

  method Keys(rows: Policy) returns (keys: seq<string>)
    ensures Enumerates(keys, rows)
  {
    keys := [];
    var rest := rows.Keys;
    while rest != {}
      invariant rest <= rows.Keys
      invariant Distinct(keys) && forall k :: k in keys <==> k in rows && k !in rest
      decreases rest
    {
      var key :| key in rest;
      keys := keys + [key];
      rest := rest - {key};
    }
  }

  method ParseLanAllow(p: Printer, spec: string) returns (result: Option<Policy>)
    ensures result == Parse(p, spec)
  {
    var rows: Policy := map[];
    var fields := Fields(spec);
    var i := 0;
    while i < |fields|
      invariant 0 <= i <= |fields|
      invariant AddRows(p, map[], fields[..i]) == Some(rows)
    {
      FieldsSoFar(p, fields, i, rows);
      var added := AddRow(p, rows, fields[i]);
      if added.None? {
        RefusalIsFinal(p, fields, i + 1);
        return None;
      }
      rows := added.value;
      i := i + 1;
    }
    assert fields[..i] == fields;
    return Some(rows);
  }

  lemma FieldsSoFar(p: Printer, fields: seq<string>, i: nat, rows: Policy)
    requires i < |fields| && AddRows(p, map[], fields[..i]) == Some(rows)
    ensures AddRows(p, map[], fields[..i + 1]) == AddRow(p, rows, fields[i])
  {
    assert fields[..i + 1] == fields[..i] + [fields[i]];
    OneMoreRow(p, map[], fields[..i], fields[i]);
  }

  lemma {:induction false} RefusalIsFinal(p: Printer, rs: seq<string>, n: nat)
    requires n <= |rs| && AddRows(p, map[], rs[..n]).None?
    ensures AddRows(p, map[], rs).None?
  {
    assert rs == rs[..n] + rs[n..];
    AddRowsAdd(p, map[], rs[..n], rs[n..]);
  }
}
