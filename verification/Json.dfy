/**
 JSON as far as the stores need it: a codec per record type, and what a string or a raw value turns into
 when it is written and read back.
 */
module Json {
  import opened Wrappers

  type JsonValue = bytes

  /**
   `text` maps a string to the string read back (they differ exactly when it is not valid UTF-8, because
   encoding/json replaces the bad bytes); `raw` compacts a raw value and rejects invalid JSON.
   */
  datatype JsonView = JsonView(text: string -> string, raw: JsonValue -> Option<JsonValue>) {
    predicate Faithful(s: string) {
      text(s) == s
    }

    /** Compacting a compacted value changes nothing. */
    ghost predicate Stable() {
      forall v :: raw(v).Some? ==> raw(raw(v).value) == raw(v)
    }
  }

  /** A name that is not valid UTF-8, and what encoding/json makes of it: the bad byte becomes U+FFFD. */
  const BAD_PATH: string := ['a', 0xFF as char]
  const GOOD_PATH: string := ['a', 0xEF as char, 0xBF as char, 0xBD as char]

  const REPAIRING: JsonView := JsonView(s => if s == BAD_PATH then GOOD_PATH else s, v => Some(v))

  lemma {:induction false} BadPathIsRepaired()
    ensures BAD_PATH != GOOD_PATH && REPAIRING.text(BAD_PATH) == GOOD_PATH && REPAIRING.text(GOOD_PATH) == GOOD_PATH
  {
    assert |BAD_PATH| == 2 && |GOOD_PATH| == 4;
  }

  /** json.Marshal and json.Unmarshal for one record type. */
  datatype Codec<!T(!new)> = Codec(marshal: T -> Option<bytes>, unmarshal: bytes -> Option<T>) {
    /**
     `through` says what a record becomes when it is marshalled and unmarshalled, None when it cannot be
     marshalled.
     */
    ghost predicate ReadsBack(through: T -> Option<T>) {
      forall x :: if through(x).None? then marshal(x).None?
                  else marshal(x).Some? && unmarshal(marshal(x).value) == through(x)
    }
  }
}
