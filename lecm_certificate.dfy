/**
 The certificate record reconciler: replaces the record for the requested
 logical name under the document's `certificates` key with a candidate built
 from the request's attributes, writing the file only when that record
 actually differs. After a write, the table holds exactly one record per
 logical name, each under its logical name.
 */
module LecmCertificate {
  import opened LecmConfig

  /** The attribute vocabulary a certificate record may hold. */
  const PROPERTIES: seq<string> := [
    "type", "size", "digest", "version", "subjectAltName",
    "countryName", "stateOrProvinceName", "localityName",
    "organizationName", "organizationUnitName", "commonName",
    "emailAddress", "account_key_name", "path", "remaining_days",
    "service_name"]

  /**
   Whether the request supplies a truthy value for property `p`: a request
   attribute that is absent from `attrs` was not given (Python's None), and
   the empty string is falsy.
   */
  predicate Truthy(attrs: map<string, string>, p: string)
    ensures Truthy(attrs, p) <==> p in attrs && |attrs[p]| > 0
  {
    p in attrs && attrs[p] != ""
  }

  /**
   The record the request asks for: the vocabulary's attributes that carry a
   truthy value, and nothing else. It never holds a `name` attribute.
   */
  function Candidate(attrs: map<string, string>): (cand: Record)
    ensures forall p :: p in cand ==> p in PROPERTIES && Truthy(attrs, p) && cand[p] == attrs[p]
    ensures forall p :: p in PROPERTIES && Truthy(attrs, p) ==> p in cand
    ensures "name" !in cand
  {
    map p | p in PROPERTIES && Truthy(attrs, p) :: attrs[p]
  }

  /** The loop over the vocabulary that builds the candidate record. */
  method BuildCandidate(attrs: map<string, string>) returns (cand: Record)
    ensures cand == Candidate(attrs)
  {
    cand := map[];
    for i := 0 to |PROPERTIES|
      invariant forall p :: p in cand <==> p in PROPERTIES[..i] && Truthy(attrs, p)
      invariant forall p :: p in cand ==> cand[p] == attrs[p]
    {
      var prop := PROPERTIES[i];
      if Truthy(attrs, prop) {
        cand := cand[prop := attrs[prop]];
      }
    }
    assert PROPERTIES[..|PROPERTIES|] == PROPERTIES;
  }

  /** The stored records of a document: none when the `certificates` key is missing. */
  predicate WellShaped(doc: Document) {
    CERTIFICATES in doc ==> doc[CERTIFICATES].Table?
  }

  function CertsOf(doc: Document): (recs: map<string, Record>)
    requires WellShaped(doc)
    ensures CERTIFICATES in doc ==> doc[CERTIFICATES] == Table(recs)
    ensures CERTIFICATES !in doc ==> recs == map[]
  {
    if CERTIFICATES in doc then doc[CERTIFICATES].rows else map[]
  }

  /**
   The logical name of the record stored under `key`: its `name` attribute
   when it has one, its storage key otherwise.
   */
  function LogicalName(key: string, rec: Record): (l: string)
    ensures "name" in rec ==> l == rec["name"]
    ensures "name" !in rec ==> l == key
  {
    if "name" in rec then rec["name"] else key
  }

  /** One step of iterating over the stored records: a storage key and its record. */
  type Entry = (string, Record)

  function EntryName(e: Entry): string {
    LogicalName(e.0, e.1)
  }

  /** `entries` visits every stored record exactly once, in some order. */
  ghost predicate IsIteration(entries: seq<Entry>, recs: map<string, Record>) {
    && (forall i :: 0 <= i < |entries| ==> entries[i].0 in recs && recs[entries[i].0] == entries[i].1)
    && (forall i, j :: 0 <= i < j < |entries| ==> entries[i].0 != entries[j].0)
    && (forall k :: k in recs ==> exists i :: 0 <= i < |entries| && entries[i].0 == k)
  }

  /** No two stored records share a logical name. */
  ghost predicate DistinctNames(recs: map<string, Record>) {
    forall k1, k2 :: k1 in recs && k2 in recs && k1 != k2 ==>
      LogicalName(k1, recs[k1]) != LogicalName(k2, recs[k2])
  }

  /** No stored record other than the one under `k` shares its logical name. */
  ghost predicate UniqueName(recs: map<string, Record>, k: string)
    requires k in recs
  {
    forall k2 :: k2 in recs && k2 != k ==> LogicalName(k2, recs[k2]) != LogicalName(k, recs[k])
  }

  /** Every stored record sits under its own logical name. */
  ghost predicate Normalized(recs: map<string, Record>) {
    forall k :: k in recs ==> LogicalName(k, recs[k]) == k
  }

  /** The records other than the requested one, and the requested one if found. */
  datatype Split = Split(others: map<string, Record>, current: Option<Record>)

  /**
   The partition the iteration `entries` produces: a record whose logical
   name differs from `name` is kept under its logical name, a record whose
   logical name is `name` becomes the current one. Later entries overwrite
   earlier ones.
   */
  function PartitionOf(entries: seq<Entry>, name: string): (p: Split)
    ensures name !in p.others
    ensures Normalized(p.others)
    decreases |entries|
  {
    if entries == [] then Split(map[], None)
    else
      var p := PartitionOf(entries[..|entries| - 1], name);
      var e := entries[|entries| - 1];
      var l := EntryName(e);
      if l != name then Split(p.others[l := e.1], p.current)
      else Split(p.others, Some(e.1))
  }

  /**
   The loop over the stored records, in whatever order the mapping yields
   them; `entries` is the order it took.
   */
  method Partition(recs: map<string, Record>, name: string)
    returns (others: map<string, Record>, current: Option<Record>, ghost entries: seq<Entry>)
    ensures IsIteration(entries, recs)
    ensures Split(others, current) == PartitionOf(entries, name)
    ensures forall l :: l in others <==> l != name && exists k :: k in recs && LogicalName(k, recs[k]) == l
    ensures forall l :: l in others ==> exists k :: k in recs && LogicalName(k, recs[k]) == l && others[l] == recs[k]
    ensures current.Some? <==> exists k :: k in recs && LogicalName(k, recs[k]) == name
    ensures current.Some? ==> exists k :: k in recs && LogicalName(k, recs[k]) == name && current.value == recs[k]
  {
    others, current, entries := map[], None, [];
    var pending := recs.Keys;
    while pending != {}
      invariant pending <= recs.Keys
      invariant forall i :: 0 <= i < |entries| ==>
        entries[i].0 in recs && recs[entries[i].0] == entries[i].1 && entries[i].0 !in pending
      invariant forall i, j :: 0 <= i < j < |entries| ==> entries[i].0 != entries[j].0
      invariant forall k :: k in recs && k !in pending ==> exists i :: 0 <= i < |entries| && entries[i].0 == k
      invariant Split(others, current) == PartitionOf(entries, name)
      decreases pending
    {
      var key :| key in pending;
      var rec := recs[key];
      var logical := LogicalName(key, rec);
      if logical != name {
        others := others[logical := rec];
      } else {
        current := Some(rec);
      }
      ghost var before := entries;
      entries := entries + [(key, rec)];
      assert entries[..|entries| - 1] == before;
      assert entries[|before|].0 == key;
      pending := pending - {key};
    }
    forall l ensures l in others <==> l != name && exists k :: k in recs && LogicalName(k, recs[k]) == l {
      PartitionOthers(entries, name, l);
      NamedIff(entries, recs, l);
    }
    forall l | l in others
      ensures exists k :: k in recs && LogicalName(k, recs[k]) == l && others[l] == recs[k]
    {
      PartitionOthers(entries, name, l);
      var i :| LastNamed(entries, l, i) && others[l] == entries[i].1;
      assert LogicalName(entries[i].0, recs[entries[i].0]) == l;
    }
    PartitionCurrent(entries, name);
    NamedIff(entries, recs, name);
    if current.Some? {
      ghost var i :| LastNamed(entries, name, i) && current.value == entries[i].1;
      assert LogicalName(entries[i].0, recs[entries[i].0]) == name;
    }
  }

  /** Some entry has logical name `l`. */
  ghost predicate Named(entries: seq<Entry>, l: string) {
    exists i :: 0 <= i < |entries| && EntryName(entries[i]) == l
  }

  /** Entry `i` is the last one with logical name `l`. */
  ghost predicate LastNamed(entries: seq<Entry>, l: string, i: int) {
    && 0 <= i < |entries|
    && EntryName(entries[i]) == l
    && forall j :: i < j < |entries| ==> EntryName(entries[j]) != l
  }

  /**
   A logical name other than the requested one is kept exactly when some
   entry carries it, and it keeps the record of the last such entry.
   */
  lemma {:induction false} PartitionOthers(entries: seq<Entry>, name: string, l: string)
    ensures var p := PartitionOf(entries, name);
      && (l in p.others <==> l != name && Named(entries, l))
      && (l in p.others ==> exists i :: LastNamed(entries, l, i) && p.others[l] == entries[i].1)
  {
    if entries != [] {
      var n := |entries| - 1;
      var init := entries[..n];
      PartitionOthers(init, name, l);
      var p := PartitionOf(entries, name);
      var q := PartitionOf(init, name);
      if EntryName(entries[n]) == l && l != name {
        assert LastNamed(entries, l, n);
      } else {
        assert l in p.others <==> l in q.others;
        if Named(entries, l) {
          var i :| 0 <= i < |entries| && EntryName(entries[i]) == l;
          if l != name {
            assert i < n && EntryName(init[i]) == l;
          }
        }
        if Named(init, l) {
          var i :| 0 <= i < |init| && EntryName(init[i]) == l;
          assert EntryName(entries[i]) == l;
        }
        if l in p.others {
          var i :| LastNamed(init, l, i) && q.others[l] == init[i].1;
          assert LastNamed(entries, l, i);
        }
      }
    }
  }

  /**
   A record is found for the requested name exactly when some entry carries
   that logical name, and it is the record of the last such entry.
   */
  lemma {:induction false} PartitionCurrent(entries: seq<Entry>, name: string)
    ensures var p := PartitionOf(entries, name);
      && (p.current.Some? <==> Named(entries, name))
      && (p.current.Some? ==> exists i :: LastNamed(entries, name, i) && p.current.value == entries[i].1)
  {
    if entries != [] {
      var n := |entries| - 1;
      var init := entries[..n];
      PartitionCurrent(init, name);
      var p := PartitionOf(entries, name);
      if EntryName(entries[n]) == name {
        assert LastNamed(entries, name, n);
      } else {
        if Named(entries, name) {
          var i :| 0 <= i < |entries| && EntryName(entries[i]) == name;
          assert i < n && EntryName(init[i]) == name;
        }
        if Named(init, name) {
          var i :| 0 <= i < |init| && EntryName(init[i]) == name;
          assert EntryName(entries[i]) == name;
        }
        if p.current.Some? {
          var i :| LastNamed(init, name, i) && p.current.value == init[i].1;
          assert LastNamed(entries, name, i);
        }
      }
    }
  }

  /** Over a full iteration, an entry carries logical name `l` exactly when a stored record does. */
  lemma NamedIff(entries: seq<Entry>, recs: map<string, Record>, l: string)
    requires IsIteration(entries, recs)
    ensures Named(entries, l) <==> exists k :: k in recs && LogicalName(k, recs[k]) == l
  {
    if Named(entries, l) {
      var i :| 0 <= i < |entries| && EntryName(entries[i]) == l;
      var k := entries[i].0;
      assert k in recs && LogicalName(k, recs[k]) == l;
    }
    if exists k :: k in recs && LogicalName(k, recs[k]) == l {
      var k :| k in recs && LogicalName(k, recs[k]) == l;
      var i :| 0 <= i < |entries| && entries[i].0 == k;
      assert EntryName(entries[i]) == l;
    }
  }

  /**
   A record whose logical name no other record shares is kept, attributes
   intact, under its logical name, or is the record found when that name is
   the requested one.
   */
  lemma PartitionDistinct(entries: seq<Entry>, recs: map<string, Record>, name: string, k: string)
    requires IsIteration(entries, recs) && k in recs && UniqueName(recs, k)
    ensures var p := PartitionOf(entries, name);
      var l := LogicalName(k, recs[k]);
      && (l != name ==> l in p.others && p.others[l] == recs[k])
      && (l == name ==> p.current == Some(recs[k]))
  {
    var p := PartitionOf(entries, name);
    var l := LogicalName(k, recs[k]);
    NamedIff(entries, recs, l);
    if l != name {
      PartitionOthers(entries, name, l);
      var i :| LastNamed(entries, l, i) && p.others[l] == entries[i].1;
      assert LogicalName(entries[i].0, recs[entries[i].0]) == l;
    } else {
      PartitionCurrent(entries, name);
      var i :| LastNamed(entries, l, i) && p.current.value == entries[i].1;
      assert LogicalName(entries[i].0, recs[entries[i].0]) == l;
    }
  }

  /** With one record per logical name, the order of iteration does not matter. */
  lemma PartitionOrderIrrelevant(e1: seq<Entry>, e2: seq<Entry>, recs: map<string, Record>, name: string)
    requires IsIteration(e1, recs) && IsIteration(e2, recs) && DistinctNames(recs)
    ensures PartitionOf(e1, name) == PartitionOf(e2, name)
  {
    var p1, p2 := PartitionOf(e1, name), PartitionOf(e2, name);
    forall l ensures l in p1.others <==> l in p2.others {
      PartitionOthers(e1, name, l);
      PartitionOthers(e2, name, l);
      NamedIff(e1, recs, l);
      NamedIff(e2, recs, l);
    }
    forall l | l in p1.others ensures p1.others[l] == p2.others[l] {
      PartitionOthers(e1, name, l);
      NamedIff(e1, recs, l);
      var k :| k in recs && LogicalName(k, recs[k]) == l;
      PartitionDistinct(e1, recs, name, k);
      PartitionDistinct(e2, recs, name, k);
    }
    assert p1.others == p2.others;
    PartitionCurrent(e1, name);
    PartitionCurrent(e2, name);
    NamedIff(e1, recs, name);
    NamedIff(e2, recs, name);
    if p1.current.Some? {
      var k :| k in recs && LogicalName(k, recs[k]) == name;
      PartitionDistinct(e1, recs, name, k);
      PartitionDistinct(e2, recs, name, k);
    }
  }

  /**
   Reconciles the record named `name` to `cand`, given the order in which
   the stored records are visited. Nothing changes when the record found for
   that logical name equals the candidate; otherwise the rebuilt records,
   with the candidate under `name`, replace the `certificates` entry and
   every other top-level key keeps its value.
   */
  function WriteCert(doc: Document, entries: seq<Entry>, name: string, cand: Record): (r: Outcome)
    ensures r.changed <==> PartitionOf(entries, name).current != Some(cand)
    ensures !r.changed ==> r.doc == doc
    ensures r.changed ==> WellShaped(r.doc) && name in CertsOf(r.doc) && CertsOf(r.doc)[name] == cand
    ensures r.doc - {CERTIFICATES} == doc - {CERTIFICATES}
  {
    var p := PartitionOf(entries, name);
    if p.current == Some(cand) then Outcome(doc, false)
    else Outcome(doc[CERTIFICATES := Table(p.others[name := cand])], true)
  }

  /** When no stored record carries the requested logical name, the file is always written. */
  lemma WriteCertNoMatch(doc: Document, entries: seq<Entry>, name: string, cand: Record)
    requires WellShaped(doc) && IsIteration(entries, CertsOf(doc))
    requires forall k :: k in CertsOf(doc) ==> LogicalName(k, CertsOf(doc)[k]) != name
    ensures WriteCert(doc, entries, name, cand).changed
  {
    PartitionCurrent(entries, name);
    NamedIff(entries, CertsOf(doc), name);
  }

  /**
   After a write, the stored keys are the requested name and the logical
   names of the records found; any other old storage key is gone.
   */
  lemma WriteCertKeys(doc: Document, entries: seq<Entry>, name: string, cand: Record, l: string)
    requires WellShaped(doc) && IsIteration(entries, CertsOf(doc))
    requires WriteCert(doc, entries, name, cand).changed
    ensures var recs := CertsOf(doc);
      l in CertsOf(WriteCert(doc, entries, name, cand).doc) <==>
        (l == name || exists k :: k in recs && LogicalName(k, recs[k]) == l)
  {
    PartitionOthers(entries, name, l);
    NamedIff(entries, CertsOf(doc), l);
  }

  /**
   A write keeps every record other than the requested one whose logical
   name no other record shares, attributes intact, under its logical name.
   */
  lemma WriteCertSiblings(doc: Document, entries: seq<Entry>, name: string, cand: Record, k: string)
    requires WellShaped(doc) && IsIteration(entries, CertsOf(doc))
    requires WriteCert(doc, entries, name, cand).changed
    requires k in CertsOf(doc) && UniqueName(CertsOf(doc), k) && LogicalName(k, CertsOf(doc)[k]) != name
    ensures var r := WriteCert(doc, entries, name, cand);
      var l := LogicalName(k, CertsOf(doc)[k]);
      WellShaped(r.doc) && l in CertsOf(r.doc) && CertsOf(r.doc)[l] == CertsOf(doc)[k]
  {
    PartitionDistinct(entries, CertsOf(doc), name, k);
  }

  /** After a write, every record sits under its own logical name. */
  lemma WriteCertNormalizes(doc: Document, entries: seq<Entry>, name: string, cand: Record)
    requires "name" !in cand
    requires WriteCert(doc, entries, name, cand).changed
    ensures Normalized(CertsOf(WriteCert(doc, entries, name, cand).doc))
  {
  }

  /** Records that sit under their own logical names have distinct logical names. */
  lemma NormalizedDistinct(recs: map<string, Record>)
    requires Normalized(recs)
    ensures DistinctNames(recs)
  {
  }

  /**
   Repeating a request right after it has been applied changes nothing, in
   whatever order the records are visited the second time, provided the
   first request wrote the file or the records had distinct logical names.
   */
  lemma WriteCertIdempotent(doc: Document, e1: seq<Entry>, name: string, cand: Record, e2: seq<Entry>)
    requires WellShaped(doc) && IsIteration(e1, CertsOf(doc)) && "name" !in cand
    requires WriteCert(doc, e1, name, cand).changed || DistinctNames(CertsOf(doc))
    requires var r := WriteCert(doc, e1, name, cand);
      WellShaped(r.doc) && IsIteration(e2, CertsOf(r.doc))
    ensures var r := WriteCert(doc, e1, name, cand);
      WriteCert(r.doc, e2, name, cand) == Outcome(r.doc, false)
  {
    var r := WriteCert(doc, e1, name, cand);
    if r.changed {
      var recs := CertsOf(r.doc);
      WriteCertNormalizes(doc, e1, name, cand);
      NormalizedDistinct(recs);
      PartitionDistinct(e2, recs, name, name);
    } else {
      PartitionOrderIrrelevant(e1, e2, CertsOf(doc), name);
    }
  }

  /** Against a missing, malformed or null file, a request yields a table holding only the candidate. */
  lemma WriteCertBootstrap(c: Contents, entries: seq<Entry>, name: string, cand: Record)
    requires !c.Parsed? && IsIteration(entries, map[])
    ensures WriteCert(Load(c), entries, name, cand) == Outcome(map[CERTIFICATES := Table(map[name := cand])], true)
  {
    var doc := Load(c);
    WriteCertNoMatch(doc, entries, name, cand);
    var r := WriteCert(doc, entries, name, cand);
    forall l ensures l in CertsOf(r.doc) <==> l == name {
      WriteCertKeys(doc, entries, name, cand, l);
    }
    assert CertsOf(r.doc) == map[name := cand];
  }

  /** A record stored under the requested name and equal to the candidate is left alone. */
  lemma UnchangedScenario(entries: seq<Entry>)
    requires IsIteration(entries, map["lecm.example.com" := map["commonName" := "lecm.example.com"]])
    ensures var doc := map[CERTIFICATES := Table(map["lecm.example.com" := map["commonName" := "lecm.example.com"]])];
      WriteCert(doc, entries, "lecm.example.com", Candidate(map["commonName" := "lecm.example.com"]))
        == Outcome(doc, false)
  {
    var rec: Record := map["commonName" := "lecm.example.com"];
    var recs := map["lecm.example.com" := rec];
    var cand := Candidate(map["commonName" := "lecm.example.com"]);
    assert cand == rec;
    PartitionDistinct(entries, recs, "lecm.example.com", "lecm.example.com");
  }

  /**
   A record stored under `foo` that names itself `lecm.example.com` is
   replaced by the candidate under `lecm.example.com`, and `foo` is dropped.
   */
  lemma RenameScenario(entries: seq<Entry>)
    requires IsIteration(entries, map["foo" := map["name" := "lecm.example.com", "size" := "2048"]])
    ensures var doc := map[CERTIFICATES := Table(map["foo" := map["name" := "lecm.example.com", "size" := "2048"]])];
      WriteCert(doc, entries, "lecm.example.com", Candidate(map["size" := "4096"]))
        == Outcome(map[CERTIFICATES := Table(map["lecm.example.com" := map["size" := "4096"]])], true)
  {
    var stored: Record := map["name" := "lecm.example.com", "size" := "2048"];
    var recs := map["foo" := stored];
    var cand := Candidate(map["size" := "4096"]);
    assert cand == map["size" := "4096"];
    var only := [("foo", stored)];
    assert only[0].0 == "foo";
    assert IsIteration(only, recs);
    PartitionOrderIrrelevant(entries, only, recs, "lecm.example.com");
    assert PartitionOf(only, "lecm.example.com") == Split(map[], Some(stored));
  }

  /** What the module reports back to its caller. */
  datatype CertReport = CertReport(name: string, changed: bool)

  /** One request about a certificate record. */
  class Certificate {
    const name: string
    /** The request's attribute values by property; a property not given is absent. */
    const attrs: map<string, string>
    const config: ConfigFile
    var changed: bool

    constructor (name: string, attrs: map<string, string>, config: ConfigFile)
      ensures this.name == name && this.attrs == attrs && this.config == config
      ensures changed
    {
      this.name := name;
      this.attrs := attrs;
      this.config := config;
      changed := true;
    }

    /**
     State present: builds the candidate, partitions the stored records by
     logical name, and either clears `changed` (the record found equals the
     candidate) or writes the rebuilt document. `entries` is the order in
     which the stored records were visited.
     */
    method Write() returns (ghost entries: seq<Entry>)
      requires WellShaped(Load(config.contents))
      modifies this, config
      ensures IsIteration(entries, CertsOf(old(Load(config.contents))))
      ensures var o := WriteCert(old(Load(config.contents)), entries, name, Candidate(attrs));
        && changed == (old(changed) && o.changed)
        && config.contents == (if o.changed then Parsed(o.doc) else old(config.contents))
        && config.writes == old(config.writes) + (if o.changed then 1 else 0)
    {
      var cand := BuildCandidate(attrs);
      var doc := config.Read();
      var recs := CertsOf(doc);
      var others, current;
      others, current, entries := Partition(recs, name);
      if current == Some(cand) {
        changed := false;
      } else {
        others := others[name := cand];
        doc := doc[CERTIFICATES := Table(others)];
        config.Overwrite(doc);
      }
    }

    /** State absent: not implemented; nothing is read or written and `changed` keeps its value. */
    method Remove()
      ensures changed == old(changed)
      ensures config.contents == old(config.contents) && config.writes == old(config.writes)
    {
    }

    /** The result handed back to the caller: exactly the name and `changed`. */
    function Dump(): (r: CertReport)
      reads this
      ensures r.name == name && r.changed == changed
    {
      CertReport(name, changed)
    }
  }

  /**
   Two invocations of the module with the same present request, the first
   visiting the stored records in the order `e1`. Once the first has written
   the file, or when the stored records have distinct logical names, the
   second reports no change and writes nothing, so the file is exactly as
   the first left it.
   */
  method WriteTwice(config: ConfigFile, name: string, attrs: map<string, string>)
    returns (first: bool, second: bool, ghost e1: seq<Entry>)
    requires WellShaped(Load(config.contents))
    modifies config
    ensures IsIteration(e1, CertsOf(old(Load(config.contents))))
    ensures first == WriteCert(old(Load(config.contents)), e1, name, Candidate(attrs)).changed
    ensures first || DistinctNames(CertsOf(old(Load(config.contents)))) ==>
      && !second
      && config.contents ==
        (if first then Parsed(WriteCert(old(Load(config.contents)), e1, name, Candidate(attrs)).doc)
         else old(config.contents))
      && config.writes == old(config.writes) + (if first then 1 else 0)
  {
    ghost var doc := Load(config.contents);
    var c := new Certificate(name, attrs, config);
    e1 := c.Write();
    first := c.changed;
    var d := new Certificate(name, attrs, config);
    ghost var e2 := d.Write();
    second := d.changed;
    if first || DistinctNames(CertsOf(doc)) {
      WriteCertIdempotent(doc, e1, name, Candidate(attrs), e2);
    }
  }

  /** A request for absence reports a change and leaves the file alone. */
  method RemoveReport(config: ConfigFile, name: string, attrs: map<string, string>)
    returns (report: CertReport)
    ensures report == CertReport(name, true)
    ensures config.contents == old(config.contents) && config.writes == old(config.writes)
  {
    var c := new Certificate(name, attrs, config);
    c.Remove();
    report := c.Dump();
  }
}
