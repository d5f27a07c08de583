/** `CheckBoxRequiredAttribute`: a check box must be ticked; on the client
    side the attribute adds its validation attributes without overwriting
    any that are already present. */
module CheckboxRequired {
  import opened Validation

  const DataVal: string := "data-val"
  const DataValCheckboxRequired: string := "data-val-checkboxrequired"

  /** `IsValid(value)`: a boolean answers for itself; null and every other value fail. */
  function IsValid(value: Value): (r: bool)
    ensures r <==> value == Bool(true)
  {
    if value.Bool? then value.flag else false
  }

  /** The dictionary after a merge: an existing key keeps its value, an absent
      key is added with the new value, and nothing else changes. */
  function Merged(m: map<string, string>, key: string, value: string): (r: map<string, string>)
    ensures r.Keys == m.Keys + {key}
    ensures forall k :: k in m ==> r[k] == m[k]
    ensures key !in m ==> r[key] == value
  {
    if key in m then m else m[key := value]
  }

  /** Merging a key that is already present is a no-op, whatever the value:
      the first value written stays. */
  lemma FirstValueStays(m: map<string, string>, key: string, first: string, second: string)
    ensures Merged(Merged(m, key, first), key, second) == Merged(m, key, first)
    ensures Merged(Merged(m, key, first), key, second)[key] == if key in m then m[key] else first
  {
  }

  /** The `attributes` dictionary of a client validation context, updated in place. */
  class ClientAttributes {
    var entries: map<string, string>

    constructor (initial: map<string, string>)
      ensures entries == initial
    {
      entries := initial;
    }
  }

  /** `MergeAttribute`: adds `key` with `value` only when the key is absent,
      and says whether it did. */
  method MergeAttribute(attributes: ClientAttributes, key: string, value: string) returns (added: bool)
    modifies attributes
    ensures added <==> key !in old(attributes.entries)
    ensures attributes.entries == Merged(old(attributes.entries), key, value)
  {
    if key in attributes.entries {
      return false;
    }
    attributes.entries := attributes.entries[key := value];
    return true;
  }

  /** `AddValidation`: merges "data-val" with "true", then
      "data-val-checkboxrequired" with the formatted error message. Entries
      already present keep their values. */
  method AddValidation(attributes: ClientAttributes, errorMessage: string)
    modifies attributes
    ensures attributes.entries
            == Merged(Merged(old(attributes.entries), DataVal, "true"), DataValCheckboxRequired, errorMessage)
    ensures attributes.entries.Keys == old(attributes.entries).Keys + {DataVal, DataValCheckboxRequired}
    ensures forall k :: k in old(attributes.entries) ==> attributes.entries[k] == old(attributes.entries)[k]
  {
    var _ := MergeAttribute(attributes, DataVal, "true");
    var _ := MergeAttribute(attributes, DataValCheckboxRequired, errorMessage);
  }

  /** On an empty dictionary both entries are added with the given values. */
  lemma FreshAttributes(errorMessage: string)
    ensures Merged(Merged(map[], DataVal, "true"), DataValCheckboxRequired, errorMessage)
            == map[DataVal := "true", DataValCheckboxRequired := errorMessage]
  {
    assert DataVal != DataValCheckboxRequired by {
      assert |DataVal| != |DataValCheckboxRequired|;
    }
  }
}
