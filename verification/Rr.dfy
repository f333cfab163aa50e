/** Keys and resource records of avahi-core/rr.c. */
module Rr {
  import opened Utf8
  import opened Domain
  import opened Lists
  import S = StringList

  const TYPE_A := 1
  const TYPE_NS := 2
  const TYPE_CNAME := 5
  const TYPE_PTR := 12
  const TYPE_HINFO := 13
  const TYPE_TXT := 16
  const TYPE_AAAA := 28
  const TYPE_SRV := 33
  const TYPE_ANY := 255
  const CLASS_ANY := 255
  const DEFAULT_TTL := 4500

  /** The top bit of a class on the wire is a flag. */
  const FLAG_BIT := 0x8000

  datatype Key = Key(name: Text, clazz: nat, kind: nat)

  datatype Rdata =
    | Generic(data: Text)
    | Srv(priority: nat, weight: nat, port: nat, target: Text)
    | Ptr(target: Text)
    | Hinfo(cpu: Text, os: Text)
    | Txt(strings: seq<Text>) // the list from its head: the most recently added string first
    | A(address: Text)
    | Aaaa(address: Text)

  datatype Record = Record(key: Key, ttl: nat, data: Rdata)

  /** The member of the data union that the type of a record selects. */
  predicate DataOfType(kind: nat, d: Rdata) {
    if kind == TYPE_PTR || kind == TYPE_CNAME || kind == TYPE_NS then d.Ptr?
    else if kind == TYPE_SRV then d.Srv?
    else if kind == TYPE_HINFO then d.Hinfo?
    else if kind == TYPE_TXT then d.Txt?
    else if kind == TYPE_A then d.A?
    else if kind == TYPE_AAAA then d.Aaaa?
    else d.Generic?
  }

  /** The fields are in the range of their C types, and strings are C strings. */
  predicate KeyTyped(k: Key) {
    NoNul(k.name) && k.clazz < 0x10000 && k.kind < 0x10000
  }

  predicate RecordTyped(r: Record) {
    && KeyTyped(r.key) && r.ttl < 0x1_0000_0000 && DataOfType(r.key.kind, r.data)
    && match r.data {
         case Generic(data) => |data| < 0x10000
         case Srv(p, w, port, target) => p < 0x10000 && w < 0x10000 && port < 0x10000 && NoNul(target)
         case Ptr(target) => NoNul(target)
         case Hinfo(cpu, os) => NoNul(cpu) && NoNul(os)
         case Txt(_) => true
         case A(address) => |address| == 4
         case Aaaa(address) => |address| == 16
       }
  }

  /** avahi_key_new keeps the normal form of the name it is given. */
  predicate NormalName(t: Text) {
    WellFormedName(t) && NormalForm(t) == t
  }

  /** avahi_record_is_valid */
  predicate RecordValid(r: Record) {
    && NameOk(r.key.name)
    && match r.data {
         case Ptr(target) => NameOk(target)
         case Srv(_, _, _, target) => NameOk(target)
         case Hinfo(cpu, os) => |os| <= 255 && |cpu| <= 255
         case Txt(strings) => forall i :: 0 <= i < |strings| ==> S.Fits(strings[i])
         case _ => true
       }
  }

  method RecordIsValid(r: Record) returns (ok: bool)
    requires RecordTyped(r)
    ensures ok <==> RecordValid(r)
    // names are valid, and strings are not too long; those of TXT data are not empty
    ensures ok <==> && NameOk(r.key.name) && (r.data.Ptr? || r.data.Srv? ==> NameOk(r.data.target))
                    && (r.data.Hinfo? ==> |r.data.cpu| <= 255 && |r.data.os| <= 255)
                    && (r.data.Txt? ==> forall i :: 0 <= i < |r.data.strings| ==> 1 <= |r.data.strings[i]| <= 255)
  {
    ok := IsValidDomainName(r.key.name);
    if !ok {
      return;
    }
    if r.data.Ptr? || r.data.Srv? {
      ok := IsValidDomainName(r.data.target);
    } else if r.data.Hinfo? {
      ok := |r.data.os| <= 255 && |r.data.cpu| <= 255;
    } else if r.data.Txt? {
      var i := 0;
      while i < |r.data.strings|
        invariant i <= |r.data.strings| && forall j :: 0 <= j < i ==> S.Fits(r.data.strings[j])
      {
        if |r.data.strings[i]| > 255 || |r.data.strings[i]| <= 0 {
          assert !S.Fits(r.data.strings[i]);
          return false;
        }
        i := i + 1;
      }
    }
  }

  // ---------------------------------------------------------------- comparison

  predicate KeyWellFormed(k: Key) {
    NoNul(k.name) && WellFormedName(k.name)
  }

  /** What keys are compared by: avahi_key_equal ignores case, escapes and a trailing dot of names. */
  datatype KeyClass = KeyClass(labels: seq<Text>, clazz: nat, kind: nat)

  function ClassOf(k: Key): KeyClass
    requires WellFormedName(k.name)
  {
    KeyClass(Canon(k.name), k.clazz, k.kind)
  }

  /** avahi_key_equal */
  method KeyEqual(a: Key, b: Key) returns (r: bool)
    requires KeyWellFormed(a) && KeyWellFormed(b)
    ensures r <==> ClassOf(a) == ClassOf(b)
    ensures r <==> Canon(a.name) == Canon(b.name) && a.clazz == b.clazz && a.kind == b.kind
  {
    if a == b {
      return true;
    }
    r := DomainEqual(a.name, b.name);
    r := r && a.kind == b.kind && a.clazz == b.clazz;
  }

  /** The value avahi_key_hash computes. */
  function HashOf(c: KeyClass): nat {
    (HashLabels(0, c.labels) + c.kind + c.clazz) % UINT_RANGE
  }

  /** avahi_key_hash is a function of what keys are compared by: equal keys have equal hashes. */
  method KeyHash(k: Key) returns (h: nat)
    requires KeyWellFormed(k)
    ensures h == HashOf(ClassOf(k))
    ensures h == (HashLabels(0, Canon(k.name)) + k.kind + k.clazz) % 0x1_0000_0000
  {
    h := DomainHash(k.name);
    h := (h + k.kind + k.clazz) % UINT_RANGE;
  }

  predicate IsPattern(k: Key) {
    k.kind == TYPE_ANY || k.clazz == CLASS_ANY
  }

  /** A key matches a pattern: the same name, and the same or any type and class. */
  predicate Matches(pattern: KeyClass, k: KeyClass) {
    && pattern.labels == k.labels
    && (pattern.kind == k.kind || pattern.kind == TYPE_ANY)
    && (pattern.clazz == k.clazz || pattern.clazz == CLASS_ANY)
  }

  /** avahi_key_pattern_match */
  method KeyPatternMatch(pattern: Key, k: Key) returns (r: bool)
    requires KeyWellFormed(pattern) && KeyWellFormed(k)
    ensures r <==> Matches(ClassOf(pattern), ClassOf(k))
    ensures r <==> && Canon(pattern.name) == Canon(k.name) && (pattern.kind == k.kind || pattern.kind == 255)
                   && (pattern.clazz == k.clazz || pattern.clazz == 255)
  {
    if pattern == k {
      return true;
    }
    r := DomainEqual(pattern.name, k.name);
    r := r && (pattern.kind == k.kind || pattern.kind == TYPE_ANY)
      && (pattern.clazz == k.clazz || pattern.clazz == CLASS_ANY);
  }

  /** The names inside a record can be compared. */
  predicate RecordWellFormed(r: Record) {
    && KeyWellFormed(r.key) && DataOfType(r.key.kind, r.data)
    && (r.data.Ptr? || r.data.Srv? ==> NoNul(r.data.target) && WellFormedName(r.data.target))
  }

  /** What records are compared by when the TTL is ignored. */
  datatype RecordClass = RecordClass(key: KeyClass, data: Rdata, target: seq<Text>)

  function RecordClassOf(r: Record): RecordClass
    requires RecordWellFormed(r)
  {
    match r.data
    case Ptr(target) => RecordClass(ClassOf(r.key), Ptr([]), Canon(target))
    case Srv(p, w, port, target) => RecordClass(ClassOf(r.key), Srv(p, w, port, []), Canon(target))
    case _ => RecordClass(ClassOf(r.key), r.data, [])
  }

  method RdataEqual(a: Record, b: Record) returns (r: bool)
    requires RecordWellFormed(a) && RecordWellFormed(b) && a.key.kind == b.key.kind
    ensures r <==> RecordClassOf(a).data == RecordClassOf(b).data && RecordClassOf(a).target == RecordClassOf(b).target
  {
    if a.data.Srv? {
      r := DomainEqual(a.data.target, b.data.target);
      r := r && a.data.priority == b.data.priority && a.data.weight == b.data.weight && a.data.port == b.data.port;
    } else if a.data.Ptr? {
      r := DomainEqual(a.data.target, b.data.target);
    } else {
      r := a.data == b.data;
    }
  }

  /** avahi_record_equal_no_ttl */
  method RecordEqualNoTtl(a: Record, b: Record) returns (r: bool)
    requires RecordWellFormed(a) && RecordWellFormed(b)
    ensures r <==> RecordClassOf(a) == RecordClassOf(b)
    // equal keys, and equal data but for the way names are written
    ensures r <==> && Canon(a.key.name) == Canon(b.key.name) && a.key.clazz == b.key.clazz && a.key.kind == b.key.kind
                   && match a.data
                      case Ptr(target) => b.data.Ptr? && Canon(target) == Canon(b.data.target)
                      case Srv(p, w, port, target) =>
                        && b.data.Srv? && p == b.data.priority && w == b.data.weight && port == b.data.port
                        && Canon(target) == Canon(b.data.target)
                      case _ => a.data == b.data
  {
    hide Canon, WellFormedName;
    if a == b {
      return true;
    }
    r := KeyEqual(a.key, b.key);
    if r {
      r := RdataEqual(a, b);
    }
  }

  // ---------------------------------------------------------------- size estimates

  /** avahi_key_get_estimate_size */
  function KeyEstimate(k: Key): nat {
    |k.name| + 1 + 4
  }

  /** avahi_record_get_estimate_size */
  function RecordEstimate(r: Record): nat {
    KeyEstimate(r.key) + 4 + 2 +
    match r.data {
      case Ptr(target) => |target| + 1
      case Srv(_, _, _, target) => 6 + |target| + 1
      case Hinfo(cpu, os) => |os| + 1 + |cpu| + 1
      case Txt(strings) => |S.Encode(Reversed(strings))|
      case A(_) => 4
      case Aaaa(_) => 16
      case Generic(data) => |data|
    }
  }
}
