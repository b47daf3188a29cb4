/**
 * `TARGET_KEYS`: the dotted `section.field` keys of the document schema that
 * can receive a confidence. The set is written here section by section, as
 * the definition lays it out one section per line.
 */
module Schema {
  import opened Text

  /** The dotted key of a field of a section. */
  function Key(section: string, field: string): string
  {
    section + "." + field
  }

  const ShipperFields: seq<string> := ["name", "address", "contact", "email", "phone", "vat"]
  const ConsigneeFields: seq<string> := ["name", "address", "vat"]
  const NotifyFields: seq<string> := ["name", "address", "email", "phone"]
  const RefsFields: seq<string> :=
    ["shipment_no", "order_no_internal", "customer_po", "delivery_no", "customer_no",
     "loading_date", "scheduled_delivery_date"]
  const ShippingFields: seq<string> := ["shipping_point", "incoterms", "way_of_forwarding", "pol", "pod"]
  const CargoFields: seq<string> := ["description", "packaging", "net_kg", "gross_kg"]
  const MarksFields: seq<string> := ["carton_marks", "labelling"]
  const BlFields: seq<string> := ["type"]

  function SectionKeys(section: string, fields: seq<string>): set<string>
  {
    set f | f in fields :: Key(section, f)
  }

  const TargetKeys: set<string> :=
    SectionKeys("shipper", ShipperFields) + SectionKeys("consignee", ConsigneeFields)
    + SectionKeys("notify", NotifyFields) + SectionKeys("refs", RefsFields)
    + SectionKeys("shipping", ShippingFields) + SectionKeys("cargo", CargoFields)
    + SectionKeys("marks", MarksFields) + SectionKeys("bl", BlFields)

  /** A key with exactly one dot, after a non-empty section name: the shape
      that `merge_dict_path` turns into a two-level write and `flatten` turns
      back into the same key. */
  predicate IsSectionKey(k: string)
  {
    CountChar(k, '.') == 1 && Split(k, '.')[0] != ""
  }

  /** `section.field` splits back into the section and the field when
      neither holds a dot. */
  lemma KeyParts(section: string, field: string)
    requires '.' !in section && '.' !in field
    ensures Split(Key(section, field), '.') == [section, field]
    ensures CountChar(Key(section, field), '.') == 1
  {
    SplitTwo(section, field, '.');
    SplitCount(Key(section, field), '.');
  }

  lemma {:induction false} SectionKeysShape(section: string, fields: seq<string>)
    requires section != "" && '.' !in section
    requires forall i :: 0 <= i < |fields| ==> '.' !in fields[i]
    ensures forall k :: k in SectionKeys(section, fields) ==> IsSectionKey(k)
  {
    forall k | k in SectionKeys(section, fields)
      ensures IsSectionKey(k)
    {
      var i :| 0 <= i < |fields| && k == Key(section, fields[i]);
      KeyParts(section, fields[i]);
    }
  }

  lemma PartySectionsShape()
    ensures forall k :: k in SectionKeys("shipper", ShipperFields) ==> IsSectionKey(k)
    ensures forall k :: k in SectionKeys("consignee", ConsigneeFields) ==> IsSectionKey(k)
    ensures forall k :: k in SectionKeys("notify", NotifyFields) ==> IsSectionKey(k)
  {
    SectionKeysShape("shipper", ShipperFields);
    SectionKeysShape("consignee", ConsigneeFields);
    SectionKeysShape("notify", NotifyFields);
  }

  lemma RefsSectionShape()
    ensures forall k :: k in SectionKeys("refs", RefsFields) ==> IsSectionKey(k)
  {
    SectionKeysShape("refs", RefsFields);
  }

  lemma OtherSectionsShape()
    ensures forall k :: k in SectionKeys("shipping", ShippingFields) ==> IsSectionKey(k)
    ensures forall k :: k in SectionKeys("cargo", CargoFields) ==> IsSectionKey(k)
    ensures forall k :: k in SectionKeys("marks", MarksFields) ==> IsSectionKey(k)
    ensures forall k :: k in SectionKeys("bl", BlFields) ==> IsSectionKey(k)
  {
    SectionKeysShape("shipping", ShippingFields);
    SectionKeysShape("cargo", CargoFields);
    SectionKeysShape("marks", MarksFields);
    SectionKeysShape("bl", BlFields);
  }

  /** Every target key has exactly one dot, after a non-empty section name. */
  lemma TargetKeysShape()
    ensures forall k :: k in TargetKeys ==> IsSectionKey(k)
  {
    PartySectionsShape();
    RefsSectionShape();
    OtherSectionsShape();
  }
}
