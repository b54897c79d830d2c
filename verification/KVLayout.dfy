/**
 Where a secret lives in the flat store: `secrets/kv/<path>/__meta` and `secrets/kv/<path>/v<N>`.
 `ParseKey` reads a key back, which makes the layout injective for arbitrary paths.
 */
module KVLayout {
  import opened Wrappers
  import opened Text

  const KV_ROOT := "secrets/kv/"

  /** One record of one secret. */
  datatype Slot =
    | MetaSlot(path: string)
    | VersionSlot(path: string, version: nat)

  function MetaKey(path: string): string {
    KV_ROOT + path + "/__meta"
  }

  function VersionKey(path: string, version: nat): string {
    KV_ROOT + path + "/v" + Decimal(version)
  }

  function KeyOf(slot: Slot): string {
    match slot
    case MetaSlot(path) => MetaKey(path)
    case VersionSlot(path, version) => VersionKey(path, version)
  }

  /** The last segment of the key. It holds no slash. */
  function Tag(slot: Slot): (tag: string)
    ensures tag != [] && forall i :: 0 <= i < |tag| ==> tag[i] != '/'
  {
    match slot
    case MetaSlot(_) => "__meta"
    case VersionSlot(_, version) => "v" + Decimal(version)
  }

  function ParseTag(path: string, tag: string): Option<Slot> {
    if tag == "__meta" then Some(MetaSlot(path))
    else if "v" <= tag && AllDigits(tag[1..]) && tag[1..] == Decimal(DecimalValue(tag[1..]))
    then Some(VersionSlot(path, DecimalValue(tag[1..])))
    else None
  }

  /** Reads a key back: the path is everything before the last slash. */
  function ParseKey(key: string): Option<Slot> {
    if !(KV_ROOT <= key) then None
    else
      var rest := key[|KV_ROOT|..];
      var i := AfterLast(rest, '/');
      if i == 0 then None else ParseTag(rest[..i - 1], rest[i..])
  }

  lemma {:induction false} KeyShape(slot: Slot)
    ensures KeyOf(slot) == KV_ROOT + (slot.path + "/" + Tag(slot))
    ensures KV_ROOT <= KeyOf(slot)
  {
    var tag := Tag(slot);
    assert KeyOf(slot) == KV_ROOT + slot.path + ("/" + tag);
  }

  /** The keys by their characters. */
  lemma {:induction false} KeyTexts(path: string, version: nat)
    ensures MetaKey(path) == "secrets/kv/" + path + "/__meta"
    ensures exists d :: IsNumeral(d, version) && VersionKey(path, version) == "secrets/kv/" + path + "/v" + d
  {
    DecimalIsNumeral(version);
  }

  lemma {:induction false} ParseKeyOf(slot: Slot)
    ensures ParseKey(KeyOf(slot)) == Some(slot)
  {
    KeyShape(slot);
    var tag := Tag(slot);
    var rest := slot.path + "/" + tag;
    assert KeyOf(slot)[|KV_ROOT|..] == rest;
    AfterLastAt(slot.path, '/', tag);
    assert rest[..|slot.path|] == slot.path && rest[|slot.path| + 1..] == tag;
    ParseTagOf(slot);
  }

  lemma {:induction false} ParseTagOf(slot: Slot)
    ensures ParseTag(slot.path, Tag(slot)) == Some(slot)
  {
    if slot.VersionSlot? {
      DecimalRoundTrip(slot.version);
      assert Tag(slot)[1..] == Decimal(slot.version);
    }
  }

  lemma {:induction false} KeyOfParse(key: string)
    requires ParseKey(key).Some?
    ensures KeyOf(ParseKey(key).value) == key
  {
    var slot := ParseKey(key).value;
    var rest := key[|KV_ROOT|..];
    var i := AfterLast(rest, '/');
    assert rest == rest[..i - 1] + "/" + rest[i..];
    assert Tag(slot) == rest[i..] by {
      if slot.VersionSlot? { assert rest[i..] == "v" + rest[i..][1..]; }
    }
    KeyShape(slot);
    assert key == KV_ROOT + rest;
  }

  /** Different records never share a key, whatever the paths contain. */
  lemma {:induction false} LayoutInjective(a: Slot, b: Slot)
    requires KeyOf(a) == KeyOf(b)
    ensures a == b
  {
    ParseKeyOf(a);
    ParseKeyOf(b);
  }
}
