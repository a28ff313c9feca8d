/** The record extractors of main.py: the handles in an HTML export (after parsing) and in a
    JSON export (extract_usernames_from_json). */
module Extract {
  import opened Outcomes
  import opened PyText

  /** A document as json.load returns it: objects become dicts (unique keys), arrays lists.
      Numbers keep only their integer value: no rule of the extractor looks inside them. */
  datatype Json =
    | JNull
    | JBool(b: bool)
    | JNum(n: int)
    | JStr(s: string)
    | JArr(elems: seq<Json>)
    | JObj(fields: map<string, Json>)

  const StringListData := "string_list_data"
  const Value := "value"

  // ---------------------------------------------------------------------------
  // HTML export: the parser is not modelled; its result is the text of each <a>.

  /** The set of stripped anchor texts (extract_usernames_from_html after parsing). */
  function HtmlHandles(anchorTexts: seq<string>): (r: set<string>)
    ensures forall i :: 0 <= i < |anchorTexts| ==> Strip(anchorTexts[i]) in r
    ensures forall h :: h in r ==> exists i :: 0 <= i < |anchorTexts| && h == Strip(anchorTexts[i])
  {
    set i | 0 <= i < |anchorTexts| :: Strip(anchorTexts[i])
  }

  // ---------------------------------------------------------------------------
  // JSON export, top-level list: [{"string_list_data": [{"value": h}, ...]}, ...]

  /** An entry that the list branch looks into: a dict with a "string_list_data" key. */
  predicate HasList(entry: Json) {
    entry.JObj? && StringListData in entry.fields
  }

  /** An item on which item.get("value", "").strip() does not raise. */
  predicate ItemOk(item: Json) {
    item.JObj? && (Value in item.fields ==> item.fields[Value].JStr?)
  }

  /** item.get("value", "").strip(), where "".strip() is "" */
  function ItemValue(item: Json): string
    requires ItemOk(item)
  {
    if Value in item.fields then Strip(item.fields[Value].s) else ""
  }

  /** Whether `for item in v: item.get(...)` runs without raising. Iterating a string yields
      one-character strings and iterating a dict yields its keys, neither of which has .get;
      null, booleans and numbers cannot be iterated at all. */
  predicate ListOk(v: Json) {
    match v
    case JArr(items) => forall i :: 0 <= i < |items| ==> ItemOk(items[i])
    case JStr(s) => s == ""
    case JObj(m) => |m| == 0
    case _ => false
  }

  /** The values that the items of one string_list_data list add. */
  function ItemValues(items: seq<Json>): set<string>
    requires forall i :: 0 <= i < |items| ==> ItemOk(items[i])
  {
    if items == [] then {} else ItemValues(items[..|items| - 1]) + {ItemValue(items[|items| - 1])}
  }

  /** What one top-level list entry adds. */
  function EntryHandles(entry: Json): set<string>
    requires HasList(entry) ==> ListOk(entry.fields[StringListData])
  {
    if HasList(entry) && entry.fields[StringListData].JArr?
    then ItemValues(entry.fields[StringListData].elems)
    else {}
  }

  predicate EntriesOk(entries: seq<Json>) {
    forall i :: 0 <= i < |entries| && HasList(entries[i]) ==> ListOk(entries[i].fields[StringListData])
  }

  function ListHandles(entries: seq<Json>): set<string>
    requires EntriesOk(entries)
  {
    if entries == [] then {}
    else ListHandles(entries[..|entries| - 1]) + EntryHandles(entries[|entries| - 1])
  }

  // ---------------------------------------------------------------------------
  // JSON export, top-level dict: {"key": [{"value": h}, ...], ...}

  /** An element of a top-level array that the dict branch reads: a dict with a direct "value". */
  predicate HasValue(entry: Json) {
    entry.JObj? && Value in entry.fields
  }

  /** Whether entry["value"].strip() succeeds for every element that has a "value". */
  predicate GroupOk(v: Json) {
    v.JArr? ==> forall i :: 0 <= i < |v.elems| && HasValue(v.elems[i]) ==> v.elems[i].fields[Value].JStr?
  }

  /** The values one list of elements adds. */
  function GroupValues(elems: seq<Json>): set<string>
    requires GroupOk(JArr(elems))
  {
    if elems == [] then {}
    else
      var last := elems[|elems| - 1];
      GroupValues(elems[..|elems| - 1]) + (if HasValue(last) then {Strip(last.fields[Value].s)} else {})
  }

  /** What the value under one top-level key adds: only lists contribute. */
  function KeyHandles(v: Json): set<string>
    requires GroupOk(v)
  {
    if v.JArr? then GroupValues(v.elems) else {}
  }

  predicate FieldsOk(m: map<string, Json>, keys: set<string>) {
    forall key :: key in keys && key in m ==> GroupOk(m[key])
  }

  /** The union of what the given keys of the dict add. */
  function DictHandles(m: map<string, Json>, keys: set<string>): set<string>
    requires FieldsOk(m, keys)
  {
    set key, h | key in keys && key in m && h in KeyHandles(m[key]) :: h
  }

  // ---------------------------------------------------------------------------

  /** The outcome of extract_usernames_from_json on a parsed document. */
  function JsonHandles(data: Json): Result<set<string>> {
    match data
    case JArr(entries) => if EntriesOk(entries) then Ok(ListHandles(entries)) else Err(IllTyped)
    case JObj(m) => if FieldsOk(m, m.Keys) then Ok(DictHandles(m, m.Keys)) else Err(IllTyped)
    case _ => Ok({})
  }

  lemma {:induction false} DictHandlesAdd(m: map<string, Json>, keys: set<string>, key: string)
    requires key in m && FieldsOk(m, keys + {key})
    ensures DictHandles(m, keys + {key}) == DictHandles(m, keys) + KeyHandles(m[key])
  {
    var l, r := DictHandles(m, keys + {key}), DictHandles(m, keys) + KeyHandles(m[key]);
    forall h | h in r ensures h in l {
      if h in KeyHandles(m[key]) {
        assert key in keys + {key};
      } else {
        var k :| k in keys && k in m && h in KeyHandles(m[k]);
        assert k in keys + {key};
      }
    }
  }

  /** Reading one more item adds its value. */
  lemma ItemValuesSnoc(items: seq<Json>, j: nat)
    requires j < |items| && forall k :: 0 <= k <= j ==> ItemOk(items[k])
    ensures ItemValues(items[..j + 1]) == ItemValues(items[..j]) + {ItemValue(items[j])}
  {
    assert items[..j + 1][..j] == items[..j];
  }

  /** The values one string_list_data value adds (the innermost loop of the list branch). */
  method ReadStringListData(list: Json) returns (r: Result<set<string>>)
    ensures r == if ListOk(list) then Ok(if list.JArr? then ItemValues(list.elems) else {}) else Err(IllTyped)
  {
    if !list.JArr? {
      if (list.JStr? && list.s == "") || (list.JObj? && |list.fields| == 0) {
        return Ok({});
      }
      return Err(IllTyped);
    }
    var items := list.elems;
    var values: set<string> := {};
    var j := 0;
    while j < |items|
      invariant 0 <= j <= |items|
      invariant forall k :: 0 <= k < j ==> ItemOk(items[k])
      invariant values == ItemValues(items[..j])
    {
      var item := items[j];
      if !item.JObj? {
        assert !ItemOk(items[j]);
        return Err(IllTyped);
      }
      if Value in item.fields && !item.fields[Value].JStr? {
        assert !ItemOk(items[j]);
        return Err(IllTyped);
      }
      ItemValuesSnoc(items, j);
      values := values + {ItemValue(item)};
      j := j + 1;
    }
    assert items[..j] == items;
    r := Ok(values);
  }

  /** Reading one more entry adds what it contributes. */
  lemma ListHandlesSnoc(entries: seq<Json>, i: nat)
    requires i < |entries| && EntriesOk(entries[..i])
    requires HasList(entries[i]) ==> ListOk(entries[i].fields[StringListData])
    ensures EntriesOk(entries[..i + 1])
    ensures ListHandles(entries[..i + 1]) == ListHandles(entries[..i]) + EntryHandles(entries[i])
  {
    var prefix := entries[..i + 1];
    assert prefix[..i] == entries[..i] && prefix[i] == entries[i];
    assert forall k :: 0 <= k < i ==> prefix[k] == entries[..i][k];
  }

  /** The list branch: the entries that are dicts with "string_list_data". */
  method ReadEntries(entries: seq<Json>) returns (r: Result<set<string>>)
    ensures r == if EntriesOk(entries) then Ok(ListHandles(entries)) else Err(IllTyped)
  {
    var usernames: set<string> := {};
    var i := 0;
    while i < |entries|
      invariant 0 <= i <= |entries|
      invariant EntriesOk(entries[..i])
      invariant usernames == ListHandles(entries[..i])
    {
      var entry := entries[i];
      var added: set<string> := {};
      if entry.JObj? && StringListData in entry.fields {
        var values := ReadStringListData(entry.fields[StringListData]);
        if values.Err? {
          assert !EntriesOk(entries) by { assert HasList(entries[i]); }
          return values;
        }
        added := values.value;
      }
      assert added == EntryHandles(entry);
      ListHandlesSnoc(entries, i);
      usernames := usernames + added;
      i := i + 1;
    }
    assert entries[..i] == entries;
    r := Ok(usernames);
  }

  /** The values of the elements of one top-level list that have a direct "value". */
  method ReadValues(elems: seq<Json>) returns (r: Result<set<string>>)
    ensures r == if GroupOk(JArr(elems)) then Ok(GroupValues(elems)) else Err(IllTyped)
  {
    var values: set<string> := {};
    var j := 0;
    while j < |elems|
      invariant 0 <= j <= |elems|
      invariant GroupOk(JArr(elems[..j]))
      invariant values == GroupValues(elems[..j])
    {
      var entry := elems[j];
      assert elems[..j + 1][..j] == elems[..j];
      if entry.JObj? && Value in entry.fields {
        if !entry.fields[Value].JStr? {
          assert !GroupOk(JArr(elems)) by { assert elems[j] == entry; }
          return Err(IllTyped);
        }
        values := values + {Strip(entry.fields[Value].s)};
      }
      j := j + 1;
    }
    assert elems[..j] == elems;
    r := Ok(values);
  }

  /** The dict branch: every key whose value is a list. The dict's own key order is not
      modelled: neither the handles nor the raised exception depend on it. */
  method ReadFields(m: map<string, Json>) returns (r: Result<set<string>>)
    ensures r == if FieldsOk(m, m.Keys) then Ok(DictHandles(m, m.Keys)) else Err(IllTyped)
  {
    var usernames: set<string> := {};
    var todo := m.Keys;
    while todo != {}
      invariant todo <= m.Keys
      invariant FieldsOk(m, m.Keys - todo)
      invariant usernames == DictHandles(m, m.Keys - todo)
      decreases todo
    {
      var key :| key in todo;
      var done := m.Keys - todo;
      if m[key].JArr? {
        var added := ReadValues(m[key].elems);
        if added.Err? {
          assert !FieldsOk(m, m.Keys) by { assert !GroupOk(m[key]); }
          return added;
        }
        usernames := usernames + added.value;
      }
      DictHandlesAdd(m, done, key);
      assert m.Keys - (todo - {key}) == done + {key};
      todo := todo - {key};
    }
    assert m.Keys - todo == m.Keys;
    r := Ok(usernames);
  }

  /** extract_usernames_from_json after json.load: any AttributeError or TypeError raised while
      walking the document becomes Err(IllTyped). */
  method ExtractUsernamesFromJson(data: Json) returns (r: Result<set<string>>)
    ensures r == JsonHandles(data)
  {
    match data {
      case JArr(entries) => r := ReadEntries(entries);
      case JObj(m) => r := ReadFields(m);
      case _ => r := Ok({});
    }
  }

  // ---------------------------------------------------------------------------
  // What the extractors yield

  /** Item j of the string_list_data list of top-level entry i adds h. */
  predicate ListContributes(entries: seq<Json>, i: int, j: int, h: string) {
    && 0 <= i < |entries|
    && HasList(entries[i])
    && entries[i].fields[StringListData].JArr?
    && 0 <= j < |entries[i].fields[StringListData].elems|
    && ItemOk(entries[i].fields[StringListData].elems[j])
    && h == ItemValue(entries[i].fields[StringListData].elems[j])
  }

  lemma {:induction false} ItemValuesMembers(items: seq<Json>, h: string)
    requires forall i :: 0 <= i < |items| ==> ItemOk(items[i])
    ensures h in ItemValues(items) <==> exists j :: 0 <= j < |items| && h == ItemValue(items[j])
  {
    if items != [] {
      var n := |items| - 1;
      var init := items[..n];
      ItemValuesMembers(init, h);
      assert ItemValues(items) == ItemValues(init) + {ItemValue(items[n])};
      if h in ItemValues(items) {
        if h in ItemValues(init) {
          var j :| 0 <= j < |init| && h == ItemValue(init[j]);
          assert items[j] == init[j];
        } else {
          assert h == ItemValue(items[n]);
        }
      } else {
        forall j | 0 <= j < |items| ensures h != ItemValue(items[j]) {
          if j < n {
            assert items[j] == init[j];
          }
        }
      }
    }
  }

  /** A top-level list yields exactly the stripped "value" (or "" when it is missing) of each
      item of the string_list_data list of each entry that is a dict holding that key. */
  lemma {:induction false} ListHandlesMembers(entries: seq<Json>, h: string)
    requires EntriesOk(entries)
    ensures h in ListHandles(entries) <==> exists i, j :: ListContributes(entries, i, j, h)
  {
    if entries != [] {
      var n := |entries| - 1;
      var init := entries[..n];
      assert EntriesOk(init) by {
        forall i | 0 <= i < |init| && HasList(init[i])
          ensures ListOk(init[i].fields[StringListData])
        {
          assert init[i] == entries[i];
        }
      }
      ListHandlesMembers(init, h);
      EntryHandlesMembers(entries, n, h);
      assert ListHandles(entries) == ListHandles(init) + EntryHandles(entries[n]);
      if h in ListHandles(init) {
        var i, j :| ListContributes(init, i, j, h);
        assert init[i] == entries[i];
        assert ListContributes(entries, i, j, h);
      }
      forall i, j | ListContributes(entries, i, j, h) && i < n
        ensures h in ListHandles(init)
      {
        assert init[i] == entries[i];
        assert ListContributes(init, i, j, h);
      }
    }
  }

  /** What entry n adds is what its items contribute. */
  lemma EntryHandlesMembers(entries: seq<Json>, n: nat, h: string)
    requires n < |entries| && (HasList(entries[n]) ==> ListOk(entries[n].fields[StringListData]))
    ensures h in EntryHandles(entries[n]) <==> exists j :: ListContributes(entries, n, j, h)
  {
    var last := entries[n];
    if HasList(last) && last.fields[StringListData].JArr? {
      ItemValuesMembers(last.fields[StringListData].elems, h);
      if h in EntryHandles(last) {
        var j :| 0 <= j < |last.fields[StringListData].elems| && h == ItemValue(last.fields[StringListData].elems[j]);
        assert ListContributes(entries, n, j, h);
      }
    }
  }

  /** Element j of the list under `key` adds h: it is a dict with a direct "value". */
  predicate DictContributes(m: map<string, Json>, key: string, j: int, h: string) {
    && key in m
    && m[key].JArr?
    && 0 <= j < |m[key].elems|
    && HasValue(m[key].elems[j])
    && m[key].elems[j].fields[Value].JStr?
    && h == Strip(m[key].elems[j].fields[Value].s)
  }

  lemma {:induction false} GroupValuesMembers(elems: seq<Json>, h: string)
    requires GroupOk(JArr(elems))
    ensures h in GroupValues(elems) <==>
      exists j :: 0 <= j < |elems| && HasValue(elems[j]) && h == Strip(elems[j].fields[Value].s)
  {
    if elems != [] {
      var init := elems[..|elems| - 1];
      assert GroupOk(JArr(init)) by {
        forall j | 0 <= j < |init| && HasValue(init[j]) ensures init[j].fields[Value].JStr? {
          assert init[j] == elems[j];
        }
      }
      GroupValuesMembers(init, h);
      if h in GroupValues(init) {
        var j :| 0 <= j < |init| && HasValue(init[j]) && h == Strip(init[j].fields[Value].s);
        assert elems[j] == init[j];
      }
      if j :| 0 <= j < |elems| && HasValue(elems[j]) && h == Strip(elems[j].fields[Value].s) {
        if j < |init| {
          assert init[j] == elems[j];
        }
      }
    }
  }

  /** A top-level dict yields exactly the stripped "value" of each element, having a direct
      "value" key, of each of its values that is a list. An element that only carries a
      nested string_list_data adds nothing. */
  lemma DictHandlesMembers(m: map<string, Json>, h: string)
    requires FieldsOk(m, m.Keys)
    ensures h in DictHandles(m, m.Keys) <==> exists key, j :: DictContributes(m, key, j, h)
  {
    if h in DictHandles(m, m.Keys) {
      var key :| key in m && h in KeyHandles(m[key]);
      GroupValuesMembers(m[key].elems, h);
      var j :| 0 <= j < |m[key].elems| && HasValue(m[key].elems[j]) && h == Strip(m[key].elems[j].fields[Value].s);
      assert DictContributes(m, key, j, h);
    }
    if key, j :| DictContributes(m, key, j, h) {
      GroupValuesMembers(m[key].elems, h);
      assert h in KeyHandles(m[key]);
    }
  }

  /** Every handle the JSON extractor yields is already stripped. */
  lemma JsonHandlesTrimmed(data: Json, h: string)
    requires JsonHandles(data).Ok? && h in JsonHandles(data).value
    ensures Strip(h) == h
  {
    match data
    case JArr(entries) =>
      ListHandlesMembers(entries, h);
      var i, j :| ListContributes(entries, i, j, h);
      var item := entries[i].fields[StringListData].elems[j];
      if Value in item.fields {
        StripIdempotent(item.fields[Value].s);
      }
    case JObj(m) =>
      DictHandlesMembers(m, h);
      var key, j :| DictContributes(m, key, j, h);
      StripIdempotent(m[key].elems[j].fields[Value].s);
  }

  /** Every handle the HTML extractor yields is already stripped. */
  lemma HtmlHandlesTrimmed(anchorTexts: seq<string>, h: string)
    requires h in HtmlHandles(anchorTexts)
    ensures Strip(h) == h
  {
    var i :| 0 <= i < |anchorTexts| && h == Strip(anchorTexts[i]);
    StripIdempotent(anchorTexts[i]);
  }

  /** A document that is neither a list nor a dict yields no handles and raises nothing. */
  lemma ScalarDocumentYieldsNothing(data: Json)
    requires !data.JArr? && !data.JObj?
    ensures JsonHandles(data) == Ok({})
  {
  }

  /** One record in the list form: [{"string_list_data": [{"value": h}]}]. */
  function ListRecord(h: string): Json {
    JObj(map[StringListData := JArr([JObj(map[Value := JStr(h)])])])
  }

  /** The list form yields the nested handle. */
  lemma ListFormExample()
    ensures JsonHandles(JArr([ListRecord("carol")])) == Ok({"carol"})
  {
    var item := JObj(map[Value := JStr("carol")]);
    assert ItemValue(item) == "carol" by {
      StripTrimmed("carol");
    }
    assert ItemValues([item]) == ItemValues([item][..0]) + {ItemValue(item)};
    assert [ListRecord("carol")][..0] == [];
  }

  /** The dict form does not descend into string_list_data: the record that the list form reads
      as "alice" adds nothing under a top-level key. */
  lemma DictFormIgnoresNestedLists()
    ensures JsonHandles(JObj(map["relationships_following" := JArr([ListRecord("alice")])])) == Ok({})
  {
    var m := map["relationships_following" := JArr([ListRecord("alice")])];
    assert FieldsOk(m, m.Keys) by {
      assert !HasValue(ListRecord("alice"));
    }
    forall h ensures h !in DictHandles(m, m.Keys) {
      DictHandlesMembers(m, h);
    }
    assert DictHandles(m, m.Keys) == {};
  }

  /** Anchor texts are stripped and case is kept. */
  lemma HtmlExample()
    ensures HtmlHandles(["Alice", " bob "]) == {"Alice", "bob"}
  {
    var texts := ["Alice", " bob "];
    StripTrimmed("Alice");
    assert RStrip(" bob ") == RStrip(" bob") == " bob";
    assert LStrip(" bob") == LStrip("bob") == "bob";
    assert Strip(texts[0]) == "Alice" && Strip(texts[1]) == "bob";
    assert HtmlHandles(texts) == {Strip(texts[0]), Strip(texts[1])};
  }
}
