/** The name table of a packet is a hash map: what avahi-core/dns.c does with it is what the codec says of a map from
    names to offsets. */
module NameTables {
  import opened Utf8
  import opened Wire
  import opened DnsPacket
  import opened Hashmap

  type Table = Hashmap<Text, nat, Text>

  /** A table whose keys are told apart by all of their bytes. */
  ghost predicate OfNames(h: Table)
    reads h`entries, h.buckets, h.entries
  {
    h.Valid() && forall t: Text :: h.canon(t) == t
  }

  /** A new table; which hash is used makes no difference. */
  method NewTable(hash: Text -> nat) returns (h: Table)
    ensures fresh(h) && fresh(h.buckets) && OfNames(h) && h.Model() == map[] && h.entries == []
  {
    TextsCongruent(hash);
    h := new Hashmap(hash, (a: Text, b: Text) => a == b, (t: Text) => t);
  }

  /** A label was written: its place is entered unless the name has one. */
  method EnterName(h: Table, name: Text, at: nat)
    requires OfNames(h)
    modifies h, h.buckets
    ensures OfNames(h) && h.Model() == Enter(old(h.Model()), name, at)
  {
    var there := h.Insert(name, at);
  }

  /** avahi_dns_packet_cleanup_name_table */
  method CleanUp(h: Table, size: nat)
    requires OfNames(h)
    modifies h, h.buckets
    ensures OfNames(h) && h.Model() == Cleaned(old(h.Model()), size)
  {
    hide Hashmap.Valid, Hashmap.Model, Hashmap.Mapping, Cleaned;
    ghost var all := h.entries;
    Entries(h);
    var visited := h.Foreach((name, at) => at >= size);
    Entries(h);
    Kept(h, all, size);
  }

  lemma Entries(h: Table)
    requires h.Valid()
    ensures h.Distinct(h.entries) && h.Model() == h.Mapping(h.entries)
  {
  }

  lemma Kept(h: Table, all: seq<Entry<Text, nat>>, size: nat)
    requires (forall t: Text :: h.canon(t) == t) && h.Distinct(all) && h.Distinct(h.entries)
    requires forall e :: e in h.entries <==> e in all && e.value < size
    ensures h.Mapping(h.entries) == Cleaned(h.Mapping(all), size)
  {
  }
}
