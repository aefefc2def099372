/** The Access profile provider: the encoding of a user's property values
    into the two strings stored in aspnet_Profile (PropertyNames, a list of
    name:S|B:start:length: records, and PropertyValuesString, the string
    values concatenated) and the parser that reads them back; the upsert of
    a user's profile row; the paged profile queries; the provider's cached
    application id. The serializers a property uses (TypeConverter,
    XmlSerializer, BinaryFormatter) are not modelled: a property carries
    what its serializer produced. */
module AccessProfile {
  import opened Common
  import opened Text
  import Base64
  import opened AccessStore
  import opened ConnectionHelper
  import opened Connections
  import opened Identifiers
  import opened Transactions
  import Paging
  import PersonalizationProviderHelper

  type Byte = Base64.Byte

  /** What SerializePropertyValue makes of a non-null property value: a
      string (String and Xml serialization), a byte array (Binary), or null
      when a conversion failed and the property does not throw on errors. */
  datatype Serialized = SerializedNull | SerializedString(s: string) | SerializedBytes(bytes: seq<Byte>)

  /** A SettingsPropertyValue as PrepareDataForSaving reads it; a null
      property value is None. */
  datatype PropertyValue = PropertyValue(
    name: string,
    isDirty: bool,
    allowAnonymous: bool,
    usingDefaultValue: bool,
    deserialized: bool,
    value: Option<Serialized>)

  /** What a saved property contributes: a null (length -1), a string
      appended to the values, or bytes appended to the binary buffer. */
  datatype Payload = NullPayload | StringPayload(s: string) | BytesPayload(bytes: seq<Byte>)

  /** The payload of a property: a deserialized null or a null
      serialization is a null; without binary storage, bytes are carried as
      their Base64 text. */
  function PayloadOf(p: PropertyValue, binarySupported: bool): Payload
  {
    if p.deserialized && p.value.None? then NullPayload
    else
      match p.value
      case None => NullPayload
      case Some(SerializedNull) => NullPayload
      case Some(SerializedString(s)) => StringPayload(s)
      case Some(SerializedBytes(b)) => if binarySupported then BytesPayload(b) else StringPayload(Base64.Encode(b))
  }

  /** The user may store this property: authenticated, or the property
      allows anonymous users. */
  predicate MaySave(p: PropertyValue, userIsAuthenticated: bool)
  {
    userIsAuthenticated || p.allowAnonymous
  }

  /** The property gets a record: it may be saved and it was written to or
      fetched (it is not a clean default). */
  predicate Emits(p: PropertyValue, userIsAuthenticated: bool)
  {
    MaySave(p, userIsAuthenticated) && !(!p.isDirty && p.usingDefaultValue)
  }

  /** The first loop's question: is some property dirty and storable? */
  predicate AnyItemsToSave(properties: seq<PropertyValue>, userIsAuthenticated: bool)
  {
    exists i :: 0 <= i < |properties| && properties[i].isDirty && MaySave(properties[i], userIsAuthenticated)
  }

  /** The names string, the values string and the binary buffer. */
  datatype Encoded = Encoded(names: string, values: string, buf: seq<Byte>)

  /** One record of the names string. */
  datatype Record = Record(name: string, kind: string, start: int, len: int)

  /** A record as the four fields it is written as. */
  function RecordFields(r: Record): seq<string>
  {
    [r.name, r.kind, IntToString(r.start), IntToString(r.len)]
  }

  /** The record a property gets when appended after acc: a string starts
      at the current length of the values, bytes at the current length of
      the buffer, a null at 0 with length -1. */
  function RecordOf(acc: Encoded, p: PropertyValue, binarySupported: bool): Record
  {
    match PayloadOf(p, binarySupported)
    case NullPayload => Record(p.name, "B", 0, -1)
    case StringPayload(s) => Record(p.name, "S", |acc.values|, |s|)
    case BytesPayload(b) => Record(p.name, "B", |acc.buf|, |b|)
  }

  /** One turn of the second loop for a property that gets a record. */
  function Append(acc: Encoded, p: PropertyValue, binarySupported: bool): Encoded
  {
    var r := RecordOf(acc, p, binarySupported);
    var names := acc.names + r.name + ":" + r.kind + ":" + IntToString(r.start) + ":" + IntToString(r.len) + ":";
    match PayloadOf(p, binarySupported)
    case NullPayload => Encoded(names, acc.values, acc.buf)
    case StringPayload(s) => Encoded(names, acc.values + s, acc.buf)
    case BytesPayload(b) => Encoded(names, acc.values, acc.buf + b)
  }

  /** The encoding of the properties in order, from empty strings. */
  function Prepared(properties: seq<PropertyValue>, binarySupported: bool, userIsAuthenticated: bool): Encoded
  {
    if properties == [] then Encoded([], [], [])
    else
      var n := |properties| - 1;
      var acc := Prepared(properties[..n], binarySupported, userIsAuthenticated);
      if Emits(properties[n], userIsAuthenticated) then Append(acc, properties[n], binarySupported) else acc
  }

  /** A record with the payload it was written for. */
  datatype Written = Written(record: Record, payload: Payload)

  /** The records the encoding writes, in order, with their payloads. */
  function Entries(properties: seq<PropertyValue>, binarySupported: bool, userIsAuthenticated: bool): seq<Written>
  {
    if properties == [] then []
    else
      var n := |properties| - 1;
      var es := Entries(properties[..n], binarySupported, userIsAuthenticated);
      if Emits(properties[n], userIsAuthenticated) then
        var acc := Prepared(properties[..n], binarySupported, userIsAuthenticated);
        es + [Written(RecordOf(acc, properties[n], binarySupported), PayloadOf(properties[n], binarySupported))]
      else es
  }

  /** The fields of the records, in order. */
  function AllFields(es: seq<Written>): (r: seq<string>)
    ensures |r| == 4 * |es|
  {
    if es == [] then [] else AllFields(es[..|es| - 1]) + RecordFields(es[|es| - 1].record)
  }

  /** The names of the properties. */
  function PropertyNames(properties: seq<PropertyValue>): seq<string>
  {
    seq(|properties|, k requires 0 <= k < |properties| => properties[k].name)
  }

  /** Where a record points, the payload lies, without binary storage: a
      string record's start and length select its string in the values, a
      null record is 0 and -1, and there are no byte payloads. */
  predicate Locates(e: Written, values: string)
  {
    match e.payload
    case NullPayload => e.record.kind == "B" && e.record.start == 0 && e.record.len == -1
    case StringPayload(s) =>
      && e.record.kind == "S" && e.record.len == |s|
      && 0 <= e.record.start && e.record.start + |s| <= |values|
      && values[e.record.start..e.record.start + |s|] == s
    case BytesPayload(_) => false
  }

  /** Every record locates its payload. */
  predicate AllLocate(es: seq<Written>, values: string)
  {
    forall i :: 0 <= i < |es| ==> Locates(es[i], values)
  }

  /** The record text the loop appends is the four fields, each followed
      by ':'. */
  lemma RecordText(r: Record)
    ensures r.name + ":" + r.kind + ":" + IntToString(r.start) + ":" + IntToString(r.len) + ":"
            == Terminated(RecordFields(r), ':')
  {
    var a, b, c, d := r.name, r.kind, IntToString(r.start), IntToString(r.len);
    assert [a, b, c, d][..3] == [a, b, c];
    assert [a, b, c][..2] == [a, b];
    assert [a, b][..1] == [a];
    assert [a][..0] == [];
    assert Terminated([a], ':') == a + ":";
    assert Terminated([a, b], ':') == a + ":" + b + ":";
    assert Terminated([a, b, c], ':') == a + ":" + b + ":" + c + ":";
  }

  /** Terminating a concatenation is concatenating the terminated parts. */
  lemma {:induction false} TerminatedAppend(a: seq<string>, b: seq<string>, sep: char)
    ensures Terminated(a + b, sep) == Terminated(a, sep) + Terminated(b, sep)
    decreases |b|
  {
    if b != [] {
      var n := |b| - 1;
      assert (a + b)[..|a + b| - 1] == a + b[..n];
      TerminatedAppend(a, b[..n], sep);
    } else {
      assert a + b == a;
    }
  }

  /** The string a payload adds to the values. */
  function StringOf(payload: Payload): string
  {
    if payload.StringPayload? then payload.s else []
  }

  /** One appended record, without binary storage: the names grow by the
      record's terminated fields, the values by the payload's string, and
      the record locates its payload. */
  lemma AppendParts(acc: Encoded, p: PropertyValue)
    ensures var r := RecordOf(acc, p, false);
            var e := Append(acc, p, false);
            && e.names == acc.names + Terminated(RecordFields(r), ':')
            && e.values == acc.values + StringOf(PayloadOf(p, false))
            && e.buf == acc.buf
            && Locates(Written(r, PayloadOf(p, false)), e.values)
  {
    var r := RecordOf(acc, p, false);
    var e := Append(acc, p, false);
    var tail := StringOf(PayloadOf(p, false));
    RecordText(r);
    assert e.values == acc.values + tail;
    assert e.values[|acc.values|..|acc.values| + |tail|] == tail;
  }

  /** The names string is the records' fields, each followed by ':'; without
      binary storage the buffer stays empty. */
  lemma {:induction false} PreparedNames(properties: seq<PropertyValue>, userIsAuthenticated: bool)
    ensures var e := Prepared(properties, false, userIsAuthenticated);
            && e.names == Terminated(AllFields(Entries(properties, false, userIsAuthenticated)), ':')
            && e.buf == []
    decreases |properties|
  {
    if properties != [] {
      var n := |properties| - 1;
      var init, p := properties[..n], properties[n];
      PreparedNames(init, userIsAuthenticated);
      if Emits(p, userIsAuthenticated) {
        var acc := Prepared(init, false, userIsAuthenticated);
        var es0 := Entries(init, false, userIsAuthenticated);
        var r := RecordOf(acc, p, false);
        var es := es0 + [Written(r, PayloadOf(p, false))];
        AppendParts(acc, p);
        assert Terminated(AllFields(es), ':') == acc.names + Terminated(RecordFields(r), ':') by {
          assert es[..|es| - 1] == es0;
          assert AllFields(es) == AllFields(es0) + RecordFields(r);
          TerminatedAppend(AllFields(es0), RecordFields(r), ':');
        }
      }
    }
  }

  /** Appending to the values keeps every record's string where it was. */
  lemma LocatesAfterAppend(e: Written, values: string, s: string)
    requires Locates(e, values)
    ensures Locates(e, values + s)
  {
    if e.payload.StringPayload? {
      var st, len := e.record.start, |e.payload.s|;
      assert (values + s)[st..st + len] == values[st..st + len];
    }
  }

  /** Every record locates its payload in the values string. */
  lemma {:induction false} PreparedLocates(properties: seq<PropertyValue>, userIsAuthenticated: bool)
    ensures AllLocate(Entries(properties, false, userIsAuthenticated), Prepared(properties, false, userIsAuthenticated).values)
    decreases |properties|
  {
    if properties != [] {
      var n := |properties| - 1;
      var init, p := properties[..n], properties[n];
      PreparedLocates(init, userIsAuthenticated);
      if Emits(p, userIsAuthenticated) {
        var acc := Prepared(init, false, userIsAuthenticated);
        var es0 := Entries(init, false, userIsAuthenticated);
        var w := Written(RecordOf(acc, p, false), PayloadOf(p, false));
        var es := Entries(properties, false, userIsAuthenticated);
        var values := Prepared(properties, false, userIsAuthenticated).values;
        assert es == es0 + [w];
        AppendParts(acc, p);
        forall i | 0 <= i < |es|
          ensures Locates(es[i], values)
        {
          if i < |es0| {
            assert Locates(es0[i], acc.values);
            LocatesAfterAppend(es0[i], acc.values, StringOf(PayloadOf(p, false)));
          }
        }
      }
    }
  }

  /** The records are written for the properties: each carries the name of
      one of them, and there are no more records than properties. */
  lemma {:induction false} EntriesNamed(properties: seq<PropertyValue>, binarySupported: bool, userIsAuthenticated: bool)
    ensures var es := Entries(properties, binarySupported, userIsAuthenticated);
            && |es| <= |properties|
            && forall i :: 0 <= i < |es| ==> es[i].record.name in PropertyNames(properties)
    decreases |properties|
  {
    if properties != [] {
      var n := |properties| - 1;
      var init := properties[..n];
      var es0 := Entries(init, binarySupported, userIsAuthenticated);
      EntriesNamed(init, binarySupported, userIsAuthenticated);
      assert PropertyNames(init) == PropertyNames(properties)[..n];
      assert properties[n].name == PropertyNames(properties)[n];
    }
  }

  /** Properties with distinct names get records with distinct names. */
  lemma {:induction false} EntriesDistinct(properties: seq<PropertyValue>, binarySupported: bool, userIsAuthenticated: bool)
    requires Distinct(PropertyNames(properties))
    ensures var es := Entries(properties, binarySupported, userIsAuthenticated);
            forall i, j :: 0 <= i < j < |es| ==> es[i].record.name != es[j].record.name
    decreases |properties|
  {
    if properties != [] {
      var n := |properties| - 1;
      var init := properties[..n];
      var es0 := Entries(init, binarySupported, userIsAuthenticated);
      assert PropertyNames(init) == PropertyNames(properties)[..n];
      EntriesDistinct(init, binarySupported, userIsAuthenticated);
      EntriesNamed(init, binarySupported, userIsAuthenticated);
      assert properties[n].name !in PropertyNames(init) by {
        assert properties[n].name == PropertyNames(properties)[n];
      }
    }
  }

  /** One turn of PrepareDataForSaving's second loop for a property that
      gets a record: its record is appended to the names, a string to the
      values, bytes to the buffer. */
  method AppendProperty(names: string, values: string, b: seq<Byte>, pp: PropertyValue, binarySupported: bool)
    returns (names': string, values': string, b': seq<Byte>)
    ensures Encoded(names', values', b') == Append(Encoded(names, values, b), pp, binarySupported)
  {
    names', values', b' := names, values, b;
    var len, startPos := 0, 0;
    var propValue: Option<string> := None;
    if pp.deserialized && pp.value.None? {
      len := -1;
    } else {
      match pp.value
      case None =>
        len := -1;
      case Some(SerializedNull) =>
        len := -1;
      case Some(SerializedString(str)) =>
        propValue := Some(str);
        len := |str|;
        startPos := |values'|;
      case Some(SerializedBytes(bytes)) =>
        if !binarySupported {
          var str := Base64.Encode(bytes);
          propValue := Some(str);
          len := |str|;
          startPos := |values'|;
        } else {
          startPos := |b'|;
          b' := b' + bytes;
          len := |bytes|;
        }
    }
    names' := names' + pp.name + ":" + (if propValue.Some? then "S" else "B") + ":"
               + IntToString(startPos) + ":" + IntToString(len) + ":";
    if propValue.Some? {
      values' := values' + propValue.value;
    }
  }

  /** PrepareDataForSaving: when no dirty property may be stored, the three
      strings passed by reference come back as they were; otherwise the
      names and values are the encoding of the properties, and the buffer
      is replaced only when binary storage is on. */
  method PrepareDataForSaving(allNames: string, allValues: string, buf: seq<Byte>, binarySupported: bool,
                              properties: seq<PropertyValue>, userIsAuthenticated: bool)
    returns (allNames': string, allValues': string, buf': seq<Byte>)
    ensures !AnyItemsToSave(properties, userIsAuthenticated) ==>
              allNames' == allNames && allValues' == allValues && buf' == buf
    ensures AnyItemsToSave(properties, userIsAuthenticated) ==>
              var e := Prepared(properties, binarySupported, userIsAuthenticated);
              && allNames' == e.names && allValues' == e.values
              && buf' == (if binarySupported then e.buf else buf)
  {
    allNames', allValues', buf' := allNames, allValues, buf;
    var anyItemsToSave := false;
    var i := 0;
    while i < |properties|
      invariant 0 <= i <= |properties|
      invariant forall k :: 0 <= k < i ==> !(properties[k].isDirty && MaySave(properties[k], userIsAuthenticated))
    {
      var pp := properties[i];
      if pp.isDirty {
        if userIsAuthenticated || pp.allowAnonymous {
          anyItemsToSave := true;
          break;
        }
      }
      i := i + 1;
    }
    if !anyItemsToSave {
      return;
    }

    var names, values, b := "", "", [];
    for j := 0 to |properties|
      invariant Encoded(names, values, b) == Prepared(properties[..j], binarySupported, userIsAuthenticated)
    {
      assert properties[..j + 1][..j] == properties[..j];
      var pp := properties[j];
      if !userIsAuthenticated && !pp.allowAnonymous {
        continue;
      }
      if !pp.isDirty && pp.usingDefaultValue {
        continue;
      }
      names, values, b := AppendProperty(names, values, b, pp, binarySupported);
    }
    assert properties[..|properties|] == properties;
    if binarySupported {
      buf' := b;
    }
    allNames', allValues' := names, values;
  }

  /** What a property holds: its value before parsing, null, or the value
      Deserialize builds from a string or from bytes. */
  datatype Loaded = Unparsed | LoadedNull | FromString(s: string) | FromBytes(bytes: seq<Byte>)

  /** A SettingsPropertyValue as ParseDataFromDB writes it. */
  datatype PropertySlot = PropertySlot(name: string, isValueType: bool, value: Loaded, isDirty: bool, deserialized: bool)

  /** The collection's indexer: the first property with this name, or -1
      for none. */
  function Find(slots: seq<PropertySlot>, name: string): (i: int)
    ensures -1 <= i < |slots|
    ensures i >= 0 ==> slots[i].name == name && forall k :: 0 <= k < i ==> slots[k].name != name
    ensures i == -1 ==> forall k :: 0 <= k < |slots| ==> slots[k].name != name
  {
    if slots == [] then -1
    else if slots[0].name == name then 0
    else
      var j := Find(slots[1..], name);
      if j < 0 then -1 else j + 1
  }

  /** What a record whose integers parsed does to the property it names:
      length -1 on a reference type sets null; an "S" or "B" record whose
      range passes the (wrapping Int32) bounds test is deserialized; a
      substring or block copy outside its source throws (None). */
  function ApplyRecord(pp: PropertySlot, kind: string, startPos: int, length: int, values: string, buf: seq<Byte>): Option<PropertySlot>
  {
    var pp1 := if length == -1 && !pp.isValueType then pp.(value := LoadedNull, isDirty := false, deserialized := true) else pp;
    if kind == "S" && startPos >= 0 && length > 0 && |values| >= Wrap32(startPos + length) then
      if startPos + length <= |values| then Some(pp1.(value := FromString(values[startPos..startPos + length]))) else None
    else if kind == "B" && startPos >= 0 && length > 0 && |buf| >= Wrap32(startPos + length) then
      if startPos + length <= |buf| then Some(pp1.(value := FromBytes(buf[startPos..startPos + length]))) else None
    else Some(pp1)
  }

  /** One record read back: an unknown name is skipped; an integer that
      does not parse throws and ends the parse (None), as does a record
      whose range is outside its source. */
  function ParseGroup(slots: seq<PropertySlot>, name: string, kind: string, startText: string, lenText: string,
                      values: string, buf: seq<Byte>): Option<seq<PropertySlot>>
  {
    var i := Find(slots, name);
    if i < 0 then Some(slots)
    else
      match (ParseInt32(startText), ParseInt32(lenText))
      case (Some(startPos), Some(length)) =>
        (match ApplyRecord(slots[i], kind, startPos, length, values, buf)
         case None => None
         case Some(pp) => Some(slots[i := pp]))
      case _ => None
  }

  /** The properties after the first k records, and whether an exception
      has ended the parse. */
  datatype ParseState = ParseState(slots: seq<PropertySlot>, stopped: bool)

  function ParsedGroups(names: seq<string>, values: string, buf: seq<Byte>, slots: seq<PropertySlot>, k: nat): ParseState
    requires 4 * k <= |names|
  {
    if k == 0 then ParseState(slots, false)
    else
      var st := ParsedGroups(names, values, buf, slots, k - 1);
      var g := 4 * (k - 1);
      if st.stopped then st
      else
        match ParseGroup(st.slots, names[g], names[g + 1], names[g + 2], names[g + 3], values, buf)
        case None => ParseState(st.slots, true)
        case Some(next) => ParseState(next, false)
  }

  /** The properties after every whole record of the split names string;
      trailing fields that do not make a whole record are ignored. */
  function Parsed(names: seq<string>, values: string, buf: seq<Byte>, slots: seq<PropertySlot>): seq<PropertySlot>
  {
    ParsedGroups(names, values, buf, slots, |names| / 4).slots
  }

  /** Once stopped, later records change nothing. */
  lemma {:induction false} StoppedStays(names: seq<string>, values: string, buf: seq<Byte>, slots: seq<PropertySlot>, k: nat, m: nat)
    requires k <= m && 4 * m <= |names|
    requires ParsedGroups(names, values, buf, slots, k).stopped
    ensures ParsedGroups(names, values, buf, slots, m) == ParsedGroups(names, values, buf, slots, k)
    decreases m
  {
    if k < m {
      StoppedStays(names, values, buf, slots, k, m - 1);
    }
  }

  /** A record turned current into next, or threw (ok false). */
  predicate GroupResult(current: seq<PropertySlot>, name: string, kind: string, startText: string, lenText: string,
                        values: string, buf: seq<Byte>, ok: bool, next: seq<PropertySlot>)
  {
    var r := ParseGroup(current, name, kind, startText, lenText, values, buf);
    (ok <==> r.Some?) && (ok ==> next == r.value)
  }

  /** Record k < n / 4 lies wholly within n fields. */
  lemma WholeRecord(n: nat, k: nat)
    requires k < n / 4
    ensures 4 * (k + 1) <= n
  {
  }

  /** The state after one more record, from the state before it and what
      that record does to it. */
  lemma GroupStep(names: seq<string>, values: string, buf: seq<Byte>, slots: seq<PropertySlot>, k: nat,
                  current: seq<PropertySlot>, ok: bool, next: seq<PropertySlot>)
    requires 4 * (k + 1) <= |names|
    requires ParsedGroups(names, values, buf, slots, k) == ParseState(current, false)
    requires GroupResult(current, names[4 * k], names[4 * k + 1], names[4 * k + 2], names[4 * k + 3], values, buf, ok, next)
    ensures ParsedGroups(names, values, buf, slots, k + 1) == ParseState(if ok then next else current, !ok)
  {
  }

  /** One turn of ParseDataFromDB's loop on the properties in place; false
      when it throws. */
  method ParseRecord(properties: array<PropertySlot>, name: string, kind: string, startText: string, lenText: string,
                     values: string, buf: seq<Byte>, ghost current: seq<PropertySlot>)
    returns (ok: bool)
    requires properties[..] == current
    modifies properties
    ensures GroupResult(current, name, kind, startText, lenText, values, buf, ok, properties[..])
    ensures !ok ==> properties[..] == current
  {
    var i := Find(properties[..], name);
    if i < 0 {
      return true;
    }
    var startPos := ParseInt32(startText);
    if startPos.None? {
      return false;
    }
    var length := ParseInt32(lenText);
    if length.None? {
      return false;
    }
    var pp := properties[i];
    if length.value == -1 && !pp.isValueType {
      pp := pp.(value := LoadedNull, isDirty := false, deserialized := true);
      properties[i] := pp;
    }
    if kind == "S" && startPos.value >= 0 && length.value > 0 && |values| >= Wrap32(startPos.value + length.value) {
      if startPos.value + length.value > |values| {
        return false;
      }
      properties[i] := pp.(value := FromString(values[startPos.value..startPos.value + length.value]));
    }
    if kind == "B" && startPos.value >= 0 && length.value > 0 && |buf| >= Wrap32(startPos.value + length.value) {
      if startPos.value + length.value > |buf| {
        return false;
      }
      properties[i] := pp.(value := FromBytes(buf[startPos.value..startPos.value + length.value]));
    }
    return true;
  }

  /** ParseDataFromDB: with any argument null nothing happens; otherwise the
      properties are as the records read back leave them, up to the first
      exception, which is swallowed. */
  method ParseDataFromDB(names: Option<seq<string>>, values: Option<string>, buf: Option<seq<Byte>>,
                         properties: array?<PropertySlot>)
    modifies properties
    ensures properties != null && (names.None? || values.None? || buf.None?) ==>
              properties[..] == old(properties[..])
    ensures properties != null && names.Some? && values.Some? && buf.Some? ==>
              properties[..] == Parsed(names.value, values.value, buf.value, old(properties[..]))
  {
    if names.None? || values.None? || buf.None? || properties == null {
      return;
    }
    var ns, vs, bs := names.value, values.value, buf.value;
    ghost var initial := properties[..];
    var count := |ns| / 4;
    var iter := 0;
    var thrown := false;
    while iter < count && !thrown
      invariant 0 <= iter <= count
      invariant ParsedGroups(ns, vs, bs, initial, iter) == ParseState(properties[..], thrown)
    {
      var g := 4 * iter;
      WholeRecord(|ns|, iter);
      ghost var before := properties[..];
      var ok := ParseRecord(properties, ns[g], ns[g + 1], ns[g + 2], ns[g + 3], vs, bs, before);
      GroupStep(ns, vs, bs, initial, iter, before, ok, properties[..]);
      thrown := !ok;
      iter := iter + 1;
    }
    if thrown {
      StoppedStays(ns, vs, bs, initial, iter, count);
    }
  }

  /** What reading a record back leaves in a property: a null sets a
      reference-typed property to null; a string or bytes of positive
      length are deserialized; an empty string leaves the property as it
      was. */
  function Restored(slot: PropertySlot, payload: Payload): PropertySlot
  {
    match payload
    case NullPayload => if !slot.isValueType then slot.(value := LoadedNull, isDirty := false, deserialized := true) else slot
    case StringPayload(s) => if |s| > 0 then slot.(value := FromString(s)) else slot
    case BytesPayload(b) => if |b| > 0 then slot.(value := FromBytes(b)) else slot
  }

  /** The last record written under this name. */
  function EntryNamed(es: seq<Written>, name: string): Option<Written>
  {
    if es == [] then None
    else if es[|es| - 1].record.name == name then Some(es[|es| - 1])
    else EntryNamed(es[..|es| - 1], name)
  }

  /** The properties once the records have been read back, property by
      property. */
  function Expected(slots: seq<PropertySlot>, es: seq<Written>): seq<PropertySlot>
  {
    seq(|slots|, j requires 0 <= j < |slots| =>
      match EntryNamed(es, slots[j].name)
      case None => slots[j]
      case Some(w) => Restored(slots[j], w.payload))
  }

  function SlotNames(slots: seq<PropertySlot>): seq<string>
  {
    seq(|slots|, j requires 0 <= j < |slots| => slots[j].name)
  }

  /** Fields 4k..4k+4 of names are record r. */
  predicate HoldsRecord(names: seq<string>, k: nat, r: Record)
  {
    && 4 * k + 3 < |names|
    && names[4 * k] == r.name && names[4 * k + 1] == r.kind
    && names[4 * k + 2] == IntToString(r.start) && names[4 * k + 3] == IntToString(r.len)
  }

  /** The fields of record k sit at 4k..4k+4. */
  lemma {:induction false} FieldsAt(es: seq<Written>, k: nat)
    requires k < |es|
    ensures HoldsRecord(AllFields(es), k, es[k].record)
    decreases |es|
  {
    var n := |es| - 1;
    var a, f := AllFields(es[..n]), RecordFields(es[n].record);
    assert AllFields(es) == a + f;
    if k < n {
      FieldsAt(es[..n], k);
      assert es[..n][k] == es[k];
      assert HoldsRecord(a, k, es[k].record);
      assert (a + f)[4 * k] == a[4 * k] && (a + f)[4 * k + 1] == a[4 * k + 1];
      assert (a + f)[4 * k + 2] == a[4 * k + 2] && (a + f)[4 * k + 3] == a[4 * k + 3];
    } else {
      assert (a + f)[4 * k] == f[0] && (a + f)[4 * k + 1] == f[1];
      assert (a + f)[4 * k + 2] == f[2] && (a + f)[4 * k + 3] == f[3];
    }
  }

  /** The four fields of record k, in the fields of all records followed
      by the empty piece after the last ':'. */
  lemma FieldsOf(es: seq<Written>, k: nat)
    requires k < |es|
    ensures HoldsRecord(AllFields(es) + [""], k, es[k].record)
  {
    var a := AllFields(es);
    FieldsAt(es, k);
    assert (a + [""])[4 * k] == a[4 * k] && (a + [""])[4 * k + 1] == a[4 * k + 1];
    assert (a + [""])[4 * k + 2] == a[4 * k + 2] && (a + [""])[4 * k + 3] == a[4 * k + 3];
  }

  /** No field of the records holds ':' when no name does. */
  lemma {:induction false} AllFieldsFree(es: seq<Written>, values: string)
    requires AllLocate(es, values)
    requires forall i :: 0 <= i < |es| ==> ':' !in es[i].record.name
    ensures Free(AllFields(es), ':')
    decreases |es|
  {
    if es != [] {
      var n := |es| - 1;
      var r := es[n].record;
      assert AllLocate(es[..n], values);
      AllFieldsFree(es[..n], values);
      assert Locates(es[n], values);
      IntToStringFree(r.start, ':');
      IntToStringFree(r.len, ':');
      var f0, f1 := AllFields(es[..n]), RecordFields(r);
      assert Free(f1, ':');
      forall k | 0 <= k < |f0 + f1|
        ensures ':' !in (f0 + f1)[k]
      {
        if k < |f0| {
          assert (f0 + f1)[k] == f0[k];
        } else {
          assert (f0 + f1)[k] == f1[k - |f0|];
        }
      }
    }
  }

  /** Find looks only at the names. */
  lemma {:induction false} FindByNames(a: seq<PropertySlot>, b: seq<PropertySlot>, name: string)
    requires |a| == |b| && forall j :: 0 <= j < |a| ==> a[j].name == b[j].name
    ensures Find(a, name) == Find(b, name)
    decreases |a|
  {
    if a != [] {
      FindByNames(a[1..], b[1..], name);
    }
  }

  /** No record under this name: nothing found. */
  lemma {:induction false} EntryNamedAbsent(es: seq<Written>, name: string)
    requires forall i :: 0 <= i < |es| ==> es[i].record.name != name
    ensures EntryNamed(es, name) == None
    decreases |es|
  {
    if es != [] {
      EntryNamedAbsent(es[..|es| - 1], name);
    }
  }

  /** A record that locates its payload in values (sizes within Int32)
      restores the property it names. */
  lemma SlotReadBack(pp: PropertySlot, w: Written, values: string)
    requires Locates(w, values) && |values| <= Int32Max
    ensures ApplyRecord(pp, w.record.kind, w.record.start, w.record.len, values, []) == Some(Restored(pp, w.payload))
  {
    if w.payload.StringPayload? && |w.payload.s| > 0 {
      assert Wrap32(w.record.start + w.record.len) == w.record.start + w.record.len;
    }
  }

  /** Reading back w turns current into next: the property found under
      w's name is restored, none changes when there is none. */
  predicate RestoresNext(current: seq<PropertySlot>, w: Written, next: seq<PropertySlot>)
  {
    var i := Find(current, w.record.name);
    next == if i < 0 then current else current[i := Restored(current[i], w.payload)]
  }

  /** Reading back one record that locates its payload in values: the
      property found under its name is restored, and no property changes
      when there is none. */
  lemma RecordReadBack(current: seq<PropertySlot>, w: Written, values: string,
                       name: string, kind: string, startText: string, lenText: string, next: seq<PropertySlot>)
    requires Locates(w, values) && |values| <= Int32Max
    requires name == w.record.name && kind == w.record.kind
    requires startText == IntToString(w.record.start) && lenText == IntToString(w.record.len)
    requires RestoresNext(current, w, next)
    ensures ParseGroup(current, name, kind, startText, lenText, values, []) == Some(next)
  {
    var r := w.record;
    var i := Find(current, r.name);
    if i >= 0 {
      assert IsInt32(r.start) && IsInt32(r.len);
      ParseIntToString(r.start);
      ParseIntToString(r.len);
      SlotReadBack(current[i], w, values);
    }
  }

  /** Reading record k back turns the properties expected after k records
      into those expected after k + 1, when names are distinct. */
  lemma ExpectedStep(slots: seq<PropertySlot>, done: seq<Written>, w: Written)
    requires Distinct(SlotNames(slots))
    requires forall i :: 0 <= i < |done| ==> done[i].record.name != w.record.name
    ensures RestoresNext(Expected(slots, done), w, Expected(slots, done + [w]))
  {
    var cur := Expected(slots, done);
    var next := Expected(slots, done + [w]);
    var name := w.record.name;
    assert (done + [w])[..|done|] == done;
    FindByNames(cur, slots, name);
    var i := Find(slots, name);
    forall j | 0 <= j < |slots| && slots[j].name != name
      ensures next[j] == cur[j]
    {
      assert EntryNamed(done + [w], slots[j].name) == EntryNamed(done, slots[j].name);
    }
    if i >= 0 {
      assert cur[i] == slots[i] by {
        EntryNamedAbsent(done, name);
      }
      forall j | 0 <= j < |slots| && j != i
        ensures slots[j].name != name
      {
        assert SlotNames(slots)[j] != SlotNames(slots)[i];
      }
    }
  }

  /** Reading back record k - 1, which locates its payload w in values,
      turns the state after k - 1 records into the expected next one. */
  lemma ReadBackStep(names: seq<string>, values: string, slots: seq<PropertySlot>, k: nat,
                     w: Written, current: seq<PropertySlot>, next: seq<PropertySlot>)
    requires 0 < k && 4 * k <= |names|
    requires Locates(w, values) && |values| <= Int32Max
    requires HoldsRecord(names, k - 1, w.record)
    requires RestoresNext(current, w, next)
    requires ParsedGroups(names, values, [], slots, k - 1) == ParseState(current, false)
    ensures ParsedGroups(names, values, [], slots, k) == ParseState(next, false)
  {
    var g := 4 * (k - 1);
    RecordReadBack(current, w, values, names[g], names[g + 1], names[g + 2], names[g + 3], next);
  }

  /** ExpectedStep at record k - 1 of records with distinct names. */
  lemma ExpectedAt(slots: seq<PropertySlot>, es: seq<Written>, k: nat)
    requires 0 < k <= |es|
    requires Distinct(SlotNames(slots))
    requires forall i, j :: 0 <= i < j < |es| ==> es[i].record.name != es[j].record.name
    ensures RestoresNext(Expected(slots, es[..k - 1]), es[k - 1], Expected(slots, es[..k]))
  {
    var done, w := es[..k - 1], es[k - 1];
    assert es[..k] == done + [w];
    forall i | 0 <= i < |done|
      ensures done[i].record.name != w.record.name
    {
      assert done[i] == es[i];
    }
    ExpectedStep(slots, done, w);
  }

  /** Record k - 1 read back, given the first k - 1. */
  lemma ReadBackNext(es: seq<Written>, values: string, slots: seq<PropertySlot>, k: nat)
    requires 0 < k <= |es|
    requires AllLocate(es, values) && |values| <= Int32Max
    requires Distinct(SlotNames(slots))
    requires forall i, j :: 0 <= i < j < |es| ==> es[i].record.name != es[j].record.name
    requires ParsedGroups(AllFields(es) + [""], values, [], slots, k - 1) == ParseState(Expected(slots, es[..k - 1]), false)
    ensures ParsedGroups(AllFields(es) + [""], values, [], slots, k) == ParseState(Expected(slots, es[..k]), false)
  {
    var names := AllFields(es) + [""];
    var w := es[k - 1];
    assert Locates(w, values);
    FieldsOf(es, k - 1);
    ExpectedAt(slots, es, k);
    ReadBackStep(names, values, slots, k, w, Expected(slots, es[..k - 1]), Expected(slots, es[..k]));
  }

  /** The first k records read back leave the properties as expected. */
  lemma {:induction false} ReadBackPrefix(es: seq<Written>, values: string, slots: seq<PropertySlot>, k: nat)
    requires k <= |es|
    requires AllLocate(es, values) && |values| <= Int32Max
    requires Distinct(SlotNames(slots))
    requires forall i, j :: 0 <= i < j < |es| ==> es[i].record.name != es[j].record.name
    ensures ParsedGroups(AllFields(es) + [""], values, [], slots, k) == ParseState(Expected(slots, es[..k]), false)
    decreases k
  {
    if k == 0 {
      assert Expected(slots, es[..0]) == slots;
    } else {
      ReadBackPrefix(es, values, slots, k - 1);
      ReadBackNext(es, values, slots, k);
    }
  }

  /** The round trip of the profile columns: with binary storage off, for
      properties with distinct names free of ':' whose values fit an
      Int32 length, splitting the saved names on ':' and parsing them
      against the saved values (and an empty buffer) leaves each property
      as the last record under its name prescribes: strings of positive
      length read back as written, nulls read back as null, and properties
      without a record untouched. */
  lemma SavedValuesReadBack(properties: seq<PropertyValue>, userIsAuthenticated: bool, slots: seq<PropertySlot>)
    requires Distinct(PropertyNames(properties))
    requires forall k :: 0 <= k < |properties| ==> ':' !in properties[k].name
    requires Distinct(SlotNames(slots))
    requires |Prepared(properties, false, userIsAuthenticated).values| <= Int32Max
    ensures var e := Prepared(properties, false, userIsAuthenticated);
            Parsed(Split(e.names, ':'), e.values, [], slots)
            == Expected(slots, Entries(properties, false, userIsAuthenticated))
  {
    var e := Prepared(properties, false, userIsAuthenticated);
    var es := Entries(properties, false, userIsAuthenticated);
    var fields := AllFields(es);
    PreparedNames(properties, userIsAuthenticated);
    PreparedLocates(properties, userIsAuthenticated);
    EntriesNamed(properties, false, userIsAuthenticated);
    EntriesDistinct(properties, false, userIsAuthenticated);
    forall i | 0 <= i < |es|
      ensures ':' !in es[i].record.name && !es[i].payload.BytesPayload?
    {
      var k :| 0 <= k < |properties| && PropertyNames(properties)[k] == es[i].record.name;
      assert Locates(es[i], e.values);
    }
    AllFieldsFree(es, e.values);
    assert Split(e.names, ':') == fields + [""] by {
      SplitTerminated(fields, "", ':');
      assert Terminated(fields, ':') + "" == e.names;
    }
    assert |fields + [""]| / 4 == |es|;
    ReadBackPrefix(es, e.values, slots, |es|);
    assert es[..|es|] == es;
  }

  /** A dirty property that may be saved always gets a record, so the names
      string is not empty whenever the first loop of PrepareDataForSaving
      finds something to save. */
  lemma {:induction false} ItemsMeanRecords(properties: seq<PropertyValue>, binarySupported: bool, userIsAuthenticated: bool)
    requires AnyItemsToSave(properties, userIsAuthenticated)
    ensures Prepared(properties, binarySupported, userIsAuthenticated).names != []
    decreases |properties|
  {
    var n := |properties| - 1;
    var init := properties[..n];
    var acc := Prepared(init, binarySupported, userIsAuthenticated);
    var last := properties[n];
    if last.isDirty && MaySave(last, userIsAuthenticated) {
      assert Emits(last, userIsAuthenticated);
      assert |Append(acc, last, binarySupported).names| > 0;
    } else {
      var i :| 0 <= i < |properties| && properties[i].isDirty && MaySave(properties[i], userIsAuthenticated);
      assert init[i] == properties[i];
      ItemsMeanRecords(init, binarySupported, userIsAuthenticated);
      assert |Append(acc, last, binarySupported).names| >= |acc.names|;
    }
  }

  /** ProfileAuthenticationOption. */
  datatype AuthenticationOption = Anonymous | Authenticated | All

  /** The users a profile query keeps, by their IsAnonymous flag. */
  predicate Selects(option: AuthenticationOption, isAnonymous: bool)
  {
    match option
    case Anonymous => isAnonymous
    case Authenticated => !isAnonymous
    case All => true
  }

  /** What a condition appended to a profile query keeps of a user row, by
      its IsAnonymous flag: the two IsAnonymous tests, or every row. */
  predicate ClauseAdmits(clause: string, isAnonymous: bool)
  {
    if clause == " AND IsAnonymous=Yes " then isAnonymous
    else if clause == " AND IsAnonymous=No " then !isAnonymous
    else true
  }

  /** GetClauseForAuthenticationOptions: the condition a query appends so
      that it keeps exactly the users the option selects. */
  function ClauseForAuthenticationOptions(option: AuthenticationOption): (clause: string)
    ensures forall isAnonymous :: ClauseAdmits(clause, isAnonymous) <==> Selects(option, isAnonymous)
    ensures option.All? <==> clause == " "
  {
    match option
    case Anonymous => " AND IsAnonymous=Yes "
    case Authenticated => " AND IsAnonymous=No "
    case All => " "
  }

  /** ProfileInfo: a row of a profile query. */
  datatype ProfileInfo = ProfileInfo(userName: string, isAnonymous: bool, lastActivity: int, lastUpdated: int, size: int)

  /** The ArgumentException GetProfilesForQuery throws for bad page bounds. */
  function PageArgumentError(e: Paging.PageError): Exception
  {
    match e
    case NegativePageIndex =>
      ArgumentException(PersonalizationProviderHelper.ArgumentInvalid("pageIndex", "Page index must be non-negative"))
    case NonPositivePageSize =>
      ArgumentException(PersonalizationProviderHelper.ArgumentInvalid("pageSize", "Page size must be positive"))
    case PageTooBig =>
      ArgumentException(PersonalizationProviderHelper.ArgumentInvalid("", "pageIndex*pageSize too large"))
  }

  /** The aspnet_Profile row of a user of an application, as
      GetPropertyValuesFromDatabase finds it: none when the application or
      the user is unknown, the user name is empty, or the user has no row. */
  function StoredProfile(t: Tables, appName: string, userName: string): Option<ProfileRow>
  {
    var appId := ApplicationIdIn(t, appName);
    var userId := UserIdIn(t, appId, userName);
    if appId != 0 && userName != [] && userId != 0 && userId in t.profiles then Some(t.profiles[userId]) else None
  }

  /** The tables once SetPropertyValues has stored a row for a user: the
      user created when missing, the row put in place of the user's profile
      row or added, and the user's last activity set to the row's time. */
  function ProfileSaved(t: Tables, appId: int, userName: string, isAnonymous: bool, row: ProfileRow): Tables
  {
    var withUser := AddUser(t, appId, userName, isAnonymous, row.lastUpdated);
    var userId := UserIdIn(withUser, appId, userName);
    TouchUser(withUser.(profiles := withUser.profiles[userId := row]), userId, row.lastUpdated)
  }

  /** After the save, the user's row is the one saved. */
  lemma ProfileSavedIsStored(t: Tables, appName: string, appId: int, userName: string, isAnonymous: bool, row: ProfileRow)
    requires ValidTables(t) && appName in t.applications && appId == ApplicationIdIn(t, appName) && userName != []
    ensures StoredProfile(ProfileSaved(t, appId, userName, isAnonymous, row), appName, userName) == Some(row)
  {
    var withUser := AddUser(t, appId, userName, isAnonymous, row.lastUpdated);
    UserIdSpec(t, appId, userName, isAnonymous, row.lastUpdated, appId, userName);
    var userId := UserIdIn(withUser, appId, userName);
    var r := ProfileSaved(t, appId, userName, isAnonymous, row);
    assert (appId, userName) in r.users && r.users[(appId, userName)].id == userId;
  }

  /** Every table but aspnet_Users and aspnet_Profile is the same. */
  predicate OnlyUsersAndProfiles(t: Tables, r: Tables)
  {
    && r.applications == t.applications && r.paths == t.paths && r.roles == t.roles
    && r.usersInRoles == t.usersInRoles && r.membership == t.membership
    && r.sharedBlobs == t.sharedBlobs && r.userBlobs == t.userBlobs
  }

  /** The save touches only aspnet_Users and aspnet_Profile, and keeps the
      row of every other user id. */
  lemma ProfileSavedKeeps(t: Tables, appId: int, userName: string, isAnonymous: bool, row: ProfileRow)
    ensures OnlyUsersAndProfiles(t, ProfileSaved(t, appId, userName, isAnonymous, row))
    ensures forall id :: id in t.profiles && id != UserIdIn(ProfileSaved(t, appId, userName, isAnonymous, row), appId, userName) ==>
              id in ProfileSaved(t, appId, userName, isAnonymous, row).profiles
              && ProfileSaved(t, appId, userName, isAnonymous, row).profiles[id] == t.profiles[id]
  {
    var withUser := AddUser(t, appId, userName, isAnonymous, row.lastUpdated);
    var userId := UserIdIn(withUser, appId, userName);
    var withRow := withUser.(profiles := withUser.profiles[userId := row]);
    var r := ProfileSaved(t, appId, userName, isAnonymous, row);
    assert OnlyUsersAndProfiles(t, withRow) && withRow.profiles == t.profiles[userId := row];
    assert OnlyUsersAndProfiles(withRow, r) && r.profiles == withRow.profiles && UserIdIn(r, appId, userName) == userId by {
      ProfileSavedFor(t, withUser, appId, userName, isAnonymous, row, userId);
      TouchKeepsIds(withRow, userId, row.lastUpdated, (appId, userName));
    }
  }

  /** The UPDATE of a user's existing profile row and the INSERT of a
      missing one both leave the user with the new row. */
  lemma ProfileUpsert(t: Tables, userId: int, row: ProfileRow)
    ensures userId in t.profiles ==> Apply(t, UpdateProfile(userId, row)) == t.(profiles := t.profiles[userId := row])
    ensures userId !in t.profiles ==> Apply(t, InsertProfile(userId, row)) == t.(profiles := t.profiles[userId := row])
  {
  }

  /** The saved tables in terms of the user's id once the user exists. */
  lemma ProfileSavedFor(t: Tables, withUser: Tables, appId: int, userName: string, isAnonymous: bool, row: ProfileRow,
                        userId: int)
    requires withUser == AddUser(t, appId, userName, isAnonymous, row.lastUpdated)
    requires userId == UserIdIn(withUser, appId, userName)
    ensures ProfileSaved(t, appId, userName, isAnonymous, row)
            == TouchUser(withUser.(profiles := withUser.profiles[userId := row]), userId, row.lastUpdated)
  {
  }

  /** The tables after GetPropertyValuesFromDatabase has looked a user up:
      an existing user's last activity is stamped, and nothing else
      changes. */
  function Visited(t: Tables, appId: int, userName: string, lastActivity: int): Tables
  {
    var userId := UserIdIn(t, appId, userName);
    if appId != 0 && userName != [] && userId != 0 then TouchUser(t, userId, lastActivity) else t
  }

  /** Stamping a user's activity keeps every user row's key and id, the
      applications and the profile rows. */
  lemma TouchKeepsIds(t: Tables, userId: int, lastActivity: int, key: (int, string))
    ensures var r := TouchUser(t, userId, lastActivity);
            && r.applications == t.applications && r.profiles == t.profiles
            && r.paths == t.paths && r.roles == t.roles && r.usersInRoles == t.usersInRoles
            && r.membership == t.membership && r.sharedBlobs == t.sharedBlobs && r.userBlobs == t.userBlobs
            && (key in r.users <==> key in t.users)
            && (key in t.users ==> r.users[key].id == t.users[key].id)
  {
  }

  /** Reading a profile changes no user's stored row, and no application. */
  lemma VisitKeepsProfiles(t: Tables, appId: int, userName: string, lastActivity: int, appName: string, other: string)
    ensures Visited(t, appId, userName, lastActivity).applications == t.applications
    ensures StoredProfile(Visited(t, appId, userName, lastActivity), appName, other) == StoredProfile(t, appName, other)
  {
    TouchKeepsIds(t, UserIdIn(t, appId, userName), lastActivity, (ApplicationIdIn(t, appName), other));
  }

  /** The property values once a stored row, if any, has been parsed into
      them: Split(':') of the names against the values string and an empty
      buffer. */
  function LoadedFrom(row: Option<ProfileRow>, slots: seq<PropertySlot>): seq<PropertySlot>
  {
    match row
    case None => slots
    case Some(r) => Parsed(Split(r.names, ':'), r.values, [], slots)
  }

  /** What SetPropertyValues stores is what GetPropertyValues reads back:
      once a user's row holds the encoding of the properties (binary
      storage off, distinct names free of ':', values within an Int32
      length), loading it into a collection with distinct names leaves
      each property as the last record under its name prescribes. */
  lemma {:induction false} LoadAfterSave(properties: seq<PropertyValue>, userIsAuthenticated: bool,
                                         slots: seq<PropertySlot>, t: Tables, appName: string, userName: string,
                                         lastUpdated: int)
    requires Distinct(PropertyNames(properties))
    requires forall k :: 0 <= k < |properties| ==> ':' !in properties[k].name
    requires Distinct(SlotNames(slots))
    requires |Prepared(properties, false, userIsAuthenticated).values| <= Int32Max
    requires appName in t.applications
    requires StoredProfile(t, appName, userName)
             == Some(ProfileRow(Prepared(properties, false, userIsAuthenticated).names,
                                Prepared(properties, false, userIsAuthenticated).values, lastUpdated))
    ensures LoadedFrom(StoredProfile(AddApplication(t, appName), appName, userName), slots)
            == Expected(slots, Entries(properties, false, userIsAuthenticated))
  {
    assert AddApplication(t, appName) == t;
    SavedValuesReadBack(properties, userIsAuthenticated, slots);
  }

  /** The end of GetPropertyValuesFromDatabase, once the holder is
      released: a row that was read is split on ':' and parsed into the
      properties with an empty buffer. */
  method LoadInto(row: Option<ProfileRow>, svc: array<PropertySlot>)
    modifies svc
    ensures svc[..] == LoadedFrom(row, old(svc[..]))
  {
    var names: Option<seq<string>> := if row.Some? then Some(Split(row.value.names, ':')) else None;
    var values: Option<string> := if row.Some? then Some(row.value.values) else None;
    if names.Some? && |names.value| > 0 {
      ParseDataFromDB(names, values, Some([]), svc);
    }
  }

  /** The Access profile provider's state: the database, the connection
      cache, its cached application id and the configured database file. */
  class AccessProfileProvider {
    const db: Database
    const connections: ConnectionCache
    const idCache: ApplicationIdCache
    const databaseFileName: string

    /** Between calls: no transaction, no holder in use, and the cached
        application id, if any, is the application's. */
    ghost predicate Valid()
      reads this, db, connections, connections.Holders(), idCache
    {
      Quiet(db, connections) && idCache.Consistent(db.tables)
    }

    constructor (db: Database, connections: ConnectionCache, idCache: ApplicationIdCache, databaseFileName: string)
      ensures this.db == db && this.connections == connections && this.idCache == idCache
      ensures this.databaseFileName == databaseFileName
    {
      this.db := db;
      this.connections := connections;
      this.idCache := idCache;
      this.databaseFileName := databaseFileName;
    }

    /** The application name the provider resolves. */
    function AppName(): string
      reads idCache
    {
      Truncated(idCache.EffectiveName())
    }

    /** The tables once the application's row exists. */
    function WithApplication(t: Tables): Tables
      reads idCache
    {
      AddApplication(t, AppName())
    }

    /** GetApplicationId as the calls use it: the application's id, its row
        created if it was missing. */
    method ResolveApplication(holderCreateDate: int, now: int) returns (appId: int)
      requires db.Valid() && idCache.Consistent(db.tables)
      modifies db, idCache
      ensures db.Valid() && db.snapshot == old(db.snapshot) && idCache.Consistent(db.tables)
      ensures AppName() == old(AppName())
      ensures db.tables == WithApplication(old(db.tables))
      ensures appId >= 1 && appId == ApplicationIdIn(db.tables, AppName())
    {
      var r := idCache.GetApplicationId(db, holderCreateDate, now);
      appId := r.value;
    }

    /** The upsert of SetPropertyValues inside its transaction: the user is
        looked up or created (anonymous when the caller is not
        authenticated), the profile row updated when the user has one and
        inserted otherwise, and the user's activity stamped. */
    method StoreRow(appId: int, username: string, isAnonymous: bool, names: string, values: string, now: nat)
      requires db.Valid() && db.snapshot.Some? && appId >= 1 && username != []
      modifies db
      ensures db.Valid() && db.snapshot == old(db.snapshot)
      ensures db.tables == ProfileSaved(old(db.tables), appId, username, isAnonymous,
                                        ProfileRow(names, values, RoundToSeconds(now)))
    {
      var userId := GetUserID(db, appId, Some(username), true, isAnonymous, now);
      if userId == 0 {
        assert false;
      }
      ghost var withUser := db.tables;
      var row := ProfileRow(names, values, RoundToSeconds(now));
      ProfileUpsert(withUser, userId, row);
      if userId in db.tables.profiles {
        var updated := db.Execute(UpdateProfile(userId, row));
      } else {
        var inserted := db.Execute(InsertProfile(userId, row));
      }
      ActivityUpdate(db.tables, userId, RoundToSeconds(now));
      var touched := db.Execute(UpdateUserActivity(userId, RoundToSeconds(now)));
      ProfileSavedFor(old(db.tables), withUser, appId, username, isAnonymous, row, userId);
    }

    /** SetPropertyValues: nothing happens for a missing or empty user name
        or when no property is dirty and may be saved; otherwise the
        encoded names and values are stored as the user's profile row,
        where GetPropertyValues finds them. */
    method SetPropertyValues(username: Option<string>, userIsAuthenticated: bool, properties: seq<PropertyValue>,
                             env: Environment, now: nat, openSucceeds: bool)
      returns (r: Outcome<Exception>)
      requires Valid()
      modifies db, idCache, connections, connections.Holders()
      ensures Valid() && AppName() == old(AppName())
      ensures username.None? || username.value == [] || !AnyItemsToSave(properties, userIsAuthenticated) ==>
                r.Pass? && db.tables == old(db.tables)
      ensures r.Fail? ==> db.tables == old(db.tables)
      ensures username.Some? && username.value != [] && AnyItemsToSave(properties, userIsAuthenticated) && r.Pass? ==>
                var e := Prepared(properties, false, userIsAuthenticated);
                var row := ProfileRow(e.names, e.values, RoundToSeconds(now));
                var withApp := WithApplication(old(db.tables));
                && db.tables == ProfileSaved(withApp, ApplicationIdIn(withApp, AppName()), username.value,
                                             !userIsAuthenticated, row)
                && StoredProfile(db.tables, AppName(), username.value) == Some(row)
    {
      if username.None? || |username.value| < 1 || |properties| < 1 {
        return Pass;
      }
      var names, values, buf := PrepareDataForSaving([], [], [], false, properties, userIsAuthenticated);
      if |names| == 0 {
        if AnyItemsToSave(properties, userIsAuthenticated) {
          ItemsMeanRecords(properties, false, userIsAuthenticated);
        }
        return Pass;
      }
      var connection := Acquire(db, connections, databaseFileName, env, now, openSucceeds);
      if connection.Err? {
        return Fail(connection.error);
      }
      SaveAndRelease(connection.value, username.value, userIsAuthenticated, names, values, now);
      return Pass;
    }

    /** SetPropertyValues from BEGIN TRANSACTION to COMMIT: the
        application id is resolved inside the transaction, then the row is
        stored. */
    method SaveProfile(holderCreateDate: int, username: string, userIsAuthenticated: bool,
                       names: string, values: string, now: nat)
      requires db.Valid() && db.snapshot.None? && idCache.Consistent(db.tables) && username != []
      modifies db, idCache
      ensures db.Valid() && db.snapshot.None? && idCache.Consistent(db.tables) && AppName() == old(AppName())
      ensures var row := ProfileRow(names, values, RoundToSeconds(now));
              var withApp := WithApplication(old(db.tables));
              && db.tables == ProfileSaved(withApp, ApplicationIdIn(withApp, AppName()), username, !userIsAuthenticated, row)
              && StoredProfile(db.tables, AppName(), username) == Some(row)
    {
      db.Begin();
      var appId := ResolveApplication(holderCreateDate, now);
      ghost var withApp := db.tables;
      ghost var row := ProfileRow(names, values, RoundToSeconds(now));
      StoreRow(appId, username, !userIsAuthenticated, names, values, now);
      ProfileSavedIsStored(withApp, AppName(), appId, username, !userIsAuthenticated, row);
      ProfileSavedKeeps(withApp, appId, username, !userIsAuthenticated, row);
      db.Commit();
    }

    /** SetPropertyValues once the connection is held, up to its release. */
    method SaveAndRelease(holder: ConnectionHolder, username: string, userIsAuthenticated: bool,
                          names: string, values: string, now: nat)
      requires db.Valid() && db.snapshot.None? && idCache.Consistent(db.tables) && connections.InUse(holder)
      requires username != []
      modifies db, idCache, holder
      ensures Valid() && AppName() == old(AppName())
      ensures var row := ProfileRow(names, values, RoundToSeconds(now));
              var withApp := WithApplication(old(db.tables));
              && db.tables == ProfileSaved(withApp, ApplicationIdIn(withApp, AppName()), username, !userIsAuthenticated, row)
              && StoredProfile(db.tables, AppName(), username) == Some(row)
    {
      SaveProfile(holder.createDate, username, userIsAuthenticated, names, values, now);
      Release(db, connections, holder);
    }

    /** GetPropertyValuesFromDatabase before the holder is released: the
        user is looked up without being created; for an existing user the
        profile row, if any, is read and the last activity stamped outside
        any transaction. */
    method ReadProfile(holderCreateDate: int, username: string, now: nat) returns (row: Option<ProfileRow>)
      requires db.Valid() && db.snapshot.None? && idCache.Consistent(db.tables)
      modifies db, idCache
      ensures db.Valid() && db.snapshot.None? && idCache.Consistent(db.tables) && AppName() == old(AppName())
      ensures var withApp := WithApplication(old(db.tables));
              && row == StoredProfile(withApp, AppName(), username)
              && db.tables == Visited(withApp, ApplicationIdIn(withApp, AppName()), username, RoundToSeconds(now))
    {
      var appId := ResolveApplication(holderCreateDate, now);
      var userId := GetUserID(db, appId, Some(username), false, false, now);
      row := None;
      if userId != 0 {
        if userId in db.tables.profiles {
          row := Some(db.tables.profiles[userId]);
        }
        ActivityUpdate(db.tables, userId, RoundToSeconds(now));
        var touched := db.Execute(UpdateUserActivity(userId, RoundToSeconds(now)));
      }
    }

    /** GetPropertyValuesFromDatabase once the connection is held, up to its
        release. */
    method ReadAndRelease(holder: ConnectionHolder, username: string, now: nat) returns (row: Option<ProfileRow>)
      requires db.Valid() && db.snapshot.None? && idCache.Consistent(db.tables) && connections.InUse(holder)
      modifies db, idCache, holder
      ensures Valid() && AppName() == old(AppName())
      ensures var withApp := WithApplication(old(db.tables));
              && row == StoredProfile(withApp, AppName(), username)
              && db.tables == Visited(withApp, ApplicationIdIn(withApp, AppName()), username, RoundToSeconds(now))
    {
      row := ReadProfile(holder.createDate, username, now);
      Release(db, connections, holder);
    }

    /** GetPropertyValuesFromDatabase: the user's stored names and values,
        when the user and a row exist, are parsed into the collection after
        the holder is released; a user without a row leaves it as it was. */
    method GetPropertyValuesFromDatabase(username: string, svc: array<PropertySlot>, env: Environment, now: nat,
                                         openSucceeds: bool)
      returns (r: Outcome<Exception>)
      requires Valid()
      modifies db, idCache, connections, connections.Holders(), svc
      ensures Valid() && AppName() == old(AppName())
      ensures r.Fail? ==> db.tables == old(db.tables) && svc[..] == old(svc[..])
      ensures r.Pass? ==>
                var withApp := WithApplication(old(db.tables));
                && db.tables == Visited(withApp, ApplicationIdIn(withApp, AppName()), username, RoundToSeconds(now))
                && svc[..] == LoadedFrom(StoredProfile(withApp, AppName(), username), old(svc[..]))
    {
      ghost var slots := svc[..];
      var connection := Acquire(db, connections, databaseFileName, env, now, openSucceeds);
      if connection.Err? {
        return Fail(connection.error);
      }
      var row := ReadAndRelease(connection.value, username, now);
      assert svc[..] == slots;
      LoadInto(row, svc);
      return Pass;
    }

    /** GetPropertyValues: an empty collection is returned as it is; a
        missing or empty user name leaves the properties unread; otherwise
        the stored values are read into them. */
    method GetPropertyValues(username: Option<string>, svc: array<PropertySlot>, env: Environment, now: nat,
                             openSucceeds: bool)
      returns (r: Outcome<Exception>)
      requires Valid()
      modifies db, idCache, connections, connections.Holders(), svc
      ensures Valid() && AppName() == old(AppName())
      ensures svc.Length == 0 || username.None? || username.value == [] ==>
                r.Pass? && db.tables == old(db.tables) && svc[..] == old(svc[..])
      ensures r.Fail? ==> db.tables == old(db.tables) && svc[..] == old(svc[..])
      ensures svc.Length > 0 && username.Some? && username.value != [] && r.Pass? ==>
                var withApp := WithApplication(old(db.tables));
                && db.tables == Visited(withApp, ApplicationIdIn(withApp, AppName()), username.value, RoundToSeconds(now))
                && svc[..] == LoadedFrom(StoredProfile(withApp, AppName(), username.value), old(svc[..]))
    {
      if svc.Length < 1 {
        return Pass;
      }
      if username.Some? && username.value != [] {
        r := GetPropertyValuesFromDatabase(username.value, svc, env, now, openSucceeds);
      } else {
        r := Pass;
      }
    }

    /** GetProfilesForQuery over the rows the query returns, in its order:
        bad page bounds are refused before any connection is taken;
        otherwise the application's id is resolved (the query's @AppId) and
        the page and the count of all rows are returned. */
    method GetProfilesForQuery(rows: seq<ProfileInfo>, pageIndex: int, pageSize: int, env: Environment, now: nat,
                               openSucceeds: bool)
      returns (r: Result<Paging.Page<ProfileInfo>, Exception>)
      requires Valid() && IsInt32(pageIndex) && IsInt32(pageSize)
      modifies db, idCache, connections, connections.Holders()
      ensures Valid() && AppName() == old(AppName())
      ensures Paging.CheckBounds(pageIndex, pageSize).Fail? ==>
                r == Err(PageArgumentError(Paging.CheckBounds(pageIndex, pageSize).error)) && db.tables == old(db.tables)
      ensures r.Ok? ==>
                && r.value.items == Paging.Window(rows, pageIndex, pageSize)
                && r.value.totalRecords == |rows|
                && db.tables == WithApplication(old(db.tables))
      ensures r.Err? ==> db.tables == old(db.tables)
    {
      var bounds := Paging.CheckBounds(pageIndex, pageSize);
      if bounds.Fail? {
        return Err(PageArgumentError(bounds.error));
      }
      var connection := Acquire(db, connections, databaseFileName, env, now, openSucceeds);
      if connection.Err? {
        return Err(connection.error);
      }
      var page := QueryAndRelease(connection.value, rows, pageIndex, pageSize, now);
      return Ok(page);
    }

    /** GetProfilesForQuery once the connection is held, up to its release. */
    method QueryAndRelease(holder: ConnectionHolder, rows: seq<ProfileInfo>, pageIndex: int, pageSize: int, now: nat)
      returns (page: Paging.Page<ProfileInfo>)
      requires db.Valid() && db.snapshot.None? && idCache.Consistent(db.tables) && connections.InUse(holder)
      requires IsInt32(pageIndex) && IsInt32(pageSize) && Paging.CheckBounds(pageIndex, pageSize).Pass?
      modifies db, idCache, holder
      ensures Valid() && AppName() == old(AppName())
      ensures page.items == Paging.Window(rows, pageIndex, pageSize) && page.totalRecords == |rows|
      ensures db.tables == WithApplication(old(db.tables))
    {
      var appId := ResolveApplication(holder.createDate, now);
      var r := Paging.PageZeroBased(rows, pageIndex, pageSize);
      page := r.value;
      Release(db, connections, holder);
    }
  }
}
