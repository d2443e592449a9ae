/** An already-parsed JSON document. Objects map each key to one value,
    as a parsed object does once duplicate keys are resolved. */
module Json {
  import opened Text

  datatype JValue =
    | JNull
    | JBool(b: bool)
    | JNum(n: int)
    | JStr(s: string)
    | JArr(items: seq<JValue>)
    | JObj(fields: map<string, JValue>)

  /** The value under `key` when `v` is an object holding it; every other
      kind of value has no fields. */
  function Get(v: JValue, key: string): (r: Option<JValue>)
    ensures r.Some? <==> v.JObj? && key in v.fields
  {
    match v
    case JObj(fields) => if key in fields then Some(fields[key]) else None
    case _ => None
  }

  /** The string under `key`, when there is one and it is a string. */
  function StringField(v: JValue, key: string): Option<string>
  {
    match Get(v, key)
    case Some(JStr(s)) => Some(s)
    case _ => None
  }

  /** The array under `key`, when there is one and it is an array. */
  function ArrayField(v: JValue, key: string): Option<seq<JValue>>
  {
    match Get(v, key)
    case Some(JArr(items)) => Some(items)
    case _ => None
  }
}

/** Reading the launcher's configuration: a JSON array of objects, each
    holding some of the settings. */
module Config {
  import opened Text
  import opened Json

  /** The configuration file, holding its text as read from disk. */
  class ConfFile {
    const contents: string

    constructor (contents: string)
      ensures this.contents == contents
    {
      this.contents := contents;
    }

    /** Hands out a copy of the text; the file itself is never changed. */
    method Read() returns (r: string)
      ensures r == contents
    {
      r := contents;
    }
  }

  /** Index of the last entry holding a string under `key`, if any. */
  function LastStringEntry(entries: seq<JValue>, key: string): (r: Option<nat>)
    ensures r.Some? ==> r.value < |entries| && StringField(entries[r.value], key).Some?
    ensures r.Some? ==> forall m :: r.value < m < |entries| ==> StringField(entries[m], key).None?
    ensures r.None? ==> forall i :: 0 <= i < |entries| ==> StringField(entries[i], key).None?
    decreases |entries|
  {
    if entries == [] then None
    else if StringField(entries[|entries| - 1], key).Some? then Some(|entries| - 1)
    else
      var init := entries[..|entries| - 1];
      assert forall i :: 0 <= i < |init| ==> init[i] == entries[i];
      LastStringEntry(init, key)
  }

  /** The value of setting `key` among `entries`: the string of the last entry
      that holds a string under `key`, or `""` when none does. */
  function LastString(entries: seq<JValue>, key: string): string
  {
    match LastStringEntry(entries, key)
    case Some(k) => StringField(entries[k], key).value
    case None => ""
  }

  /** The setting `which` of a configuration document; a document that is
      not an array yields `""`. */
  function ConfData(doc: JValue, which: string): string
  {
    if doc.JArr? then LastString(doc.items, which) else ""
  }

  /** Looks a setting up, entry by entry, each string found replacing the
      one before. */
  method GetConfData(doc: JValue, which: string) returns (out: string)
    ensures out == ConfData(doc, which)
    ensures !doc.JArr? ==> out == ""
  {
    out := "";
    if doc.JArr? {
      var entries := doc.items;
      for i := 0 to |entries|
        invariant out == LastString(entries[..i], which)
      {
        assert entries[..i + 1][..i] == entries[..i];
        if StringField(entries[i], which).Some? {
          out := StringField(entries[i], which).value;
        }
      }
      assert entries[..|entries|] == entries;
    }
  }

  /** Later entries override earlier ones: a block of entries that holds the
      setting decides it alone; one that does not leaves it as it was. */
  lemma {:induction false} LaterEntriesOverride(a: seq<JValue>, b: seq<JValue>, key: string)
    ensures (exists i :: 0 <= i < |b| && StringField(b[i], key).Some?) ==>
      LastString(a + b, key) == LastString(b, key)
    ensures (forall i :: 0 <= i < |b| ==> StringField(b[i], key).None?) ==>
      LastString(a + b, key) == LastString(a, key)
    decreases |b|
  {
    if b == [] {
      assert a + b == a;
    } else {
      var ab := a + b;
      var init := b[..|b| - 1];
      assert ab[|ab| - 1] == b[|b| - 1];
      assert ab[..|ab| - 1] == a + init;
      LaterEntriesOverride(a, init, key);
      if StringField(b[|b| - 1], key).None? {
        assert forall i :: 0 <= i < |init| ==> init[i] == b[i];
      }
    }
  }

  /** A document that is not an array, or in which no entry holds a string
      under `which`, gives the empty string rather than an error. */
  lemma ConfDataDefault(doc: JValue, which: string)
    requires !doc.JArr? || forall i :: 0 <= i < |doc.items| ==> StringField(doc.items[i], which).None?
    ensures ConfData(doc, which) == ""
  {
  }

  /** An entry whose value under `key` is not a string leaves the result
      unchanged. */
  lemma NonStringEntryIgnored(entries: seq<JValue>, e: JValue, key: string)
    requires StringField(e, key).None?
    ensures LastString(entries + [e], key) == LastString(entries, key)
  {
    assert (entries + [e])[..|entries|] == entries;
  }

  /** The strings of `values`, in order; other kinds of element are skipped. */
  function Strings(values: seq<JValue>): (r: seq<string>)
    ensures |r| <= |values|
    decreases |values|
  {
    if values == [] then []
    else
      var init := values[..|values| - 1];
      match values[|values| - 1]
      case JStr(c) => Strings(init) + [c]
      case _ => Strings(init)
  }

  /** A string is collected exactly when it is an element. */
  lemma {:induction false} StringsMembership(values: seq<JValue>, c: string)
    ensures c in Strings(values) <==> JStr(c) in values
    decreases |values|
  {
    if values != [] {
      var init := values[..|values| - 1];
      StringsMembership(init, c);
      assert values == init + [values[|values| - 1]];
    }
  }

  /** The colours one entry contributes: the strings of its `border_color`
      array, or nothing when that is absent or not an array. */
  function EntryBorderColors(entry: JValue): seq<string>
  {
    match ArrayField(entry, "border_color")
    case Some(items) => Strings(items)
    case None => []
  }

  /** The number of elements of the entry's `border_color` array. */
  function BorderSlots(entry: JValue): nat
  {
    match ArrayField(entry, "border_color")
    case Some(items) => |items|
    case None => 0
  }

  /** The colours of all entries, in entry order. */
  function BorderColors(entries: seq<JValue>): seq<string>
    decreases |entries|
  {
    if entries == [] then []
    else BorderColors(entries[..|entries| - 1]) + EntryBorderColors(entries[|entries| - 1])
  }

  function TotalBorderSlots(entries: seq<JValue>): nat
    decreases |entries|
  {
    if entries == [] then 0
    else TotalBorderSlots(entries[..|entries| - 1]) + BorderSlots(entries[|entries| - 1])
  }

  /** Collects the border colours, entry by entry and element by element. */
  method GetBorderColor(doc: JValue) returns (color: seq<string>)
    ensures color == (if doc.JArr? then BorderColors(doc.items) else [])
  {
    color := [];
    if doc.JArr? {
      var entries := doc.items;
      for i := 0 to |entries|
        invariant color == BorderColors(entries[..i])
      {
        assert entries[..i + 1][..i] == entries[..i];
        var targets := ArrayField(entries[i], "border_color");
        if targets.Some? {
          var items := targets.value;
          ghost var before := color;
          for j := 0 to |items|
            invariant color == before + Strings(items[..j])
          {
            assert items[..j + 1][..j] == items[..j];
            if items[j].JStr? {
              color := color + [items[j].s];
            }
          }
          assert items[..|items|] == items;
        }
      }
      assert entries[..|entries|] == entries;
    }
  }

  /** Colours keep entry order: the colours of two blocks of entries are
      those of the first followed by those of the second. */
  lemma {:induction false} BorderColorsConcat(a: seq<JValue>, b: seq<JValue>)
    ensures BorderColors(a + b) == BorderColors(a) + BorderColors(b)
    decreases |b|
  {
    if b == [] {
      assert a + b == a;
    } else {
      var init := b[..|b| - 1];
      var last := b[|b| - 1];
      assert BorderColors(a + b) == BorderColors(a + init) + EntryBorderColors(last) by {
        assert (a + b)[..|a + b| - 1] == a + init;
        assert (a + b)[|a + b| - 1] == last;
      }
      BorderColorsConcat(a, init);
      RegroupLeft(BorderColors(a + b), BorderColors(a + init), BorderColors(a), BorderColors(init), EntryBorderColors(last));
      assert BorderColors(b) == BorderColors(init) + EntryBorderColors(last);
    }
  }

  /** Only string elements of `border_color` arrays are collected, so there
      are never more colours than elements. */
  lemma {:induction false} BorderColorsBounded(entries: seq<JValue>)
    ensures |BorderColors(entries)| <= TotalBorderSlots(entries)
    decreases |entries|
  {
    if entries != [] {
      BorderColorsBounded(entries[..|entries| - 1]);
    }
  }

  /** Every colour collected is a string element of some entry's
      `border_color` array, and every such string is collected. */
  lemma {:induction false} BorderColorsMembership(entries: seq<JValue>, c: string)
    ensures c in BorderColors(entries) <==>
      exists i :: 0 <= i < |entries| && ArrayField(entries[i], "border_color").Some? &&
        JStr(c) in ArrayField(entries[i], "border_color").value
    decreases |entries|
  {
    if entries != [] {
      var init := entries[..|entries| - 1];
      BorderColorsMembership(init, c);
      assert forall i :: 0 <= i < |init| ==> init[i] == entries[i];
      var last := entries[|entries| - 1];
      if ArrayField(last, "border_color").Some? {
        StringsMembership(ArrayField(last, "border_color").value, c);
      }
    }
  }
}
