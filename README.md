# lecm configuration reconcilers, in Dafny

This project models the core of the two Ansible modules that maintain the
lecm configuration file (a YAML document):

- `lecm_global` keeps one top-level parameter `name: value` present or
  absent.
- `lecm_certificate` keeps one certificate record present under the
  document's `certificates` mapping. A stored record is identified by its
  *logical name*: its `name` attribute when it has one, otherwise its storage
  key.

Both modules load the file and treat a missing, malformed or empty (null)
file as the empty document. On a present request, and on a global
parameter's absent request, they compare the stored state with the request
and rewrite the file only when the two differ. Those requests report
`changed = false` exactly when nothing was written. A certificate's absent
request writes nothing and still reports `changed = true`.

Layout:

- `lecm_config.dfy` (module `LecmConfig`) holds the document. A `Document`
  is a `map<string, Val>`. A `Val` is a string, null, another scalar, or a
  table of records; a `Record` is a `map<string, string>`. `Contents` is
  what reading the file yields, and `Load` is the fallback to `{}`. The class
  `ConfigFile` is the file at the module's `config` path. It has a ghost
  counter of writes, so "nothing is written" can be stated apart from
  "nothing changes".
- `lecm_global.dfy` (module `LecmGlobal`) holds the specification functions
  `SetParam` and `RemoveParam` and the class `Parameter`, whose methods are
  proved against them.
- `lecm_certificate.dfy` (module `LecmCertificate`) holds the vocabulary
  `PROPERTIES` and the candidate record it builds (`Candidate`, and the loop
  `BuildCandidate`). It also holds the logical-name rule, the partition of
  the stored records (`PartitionOf`, and the loop `Partition`), the
  reconciliation `WriteCert` with its lemmas, and the class `Certificate`.

The order in which Python iterates over the stored records is unspecified.
`Partition` therefore picks the next key nondeterministically and returns, as
a ghost value, the order it took. `WriteCert` is a function of that order.
The lemmas show four things:

- When two records share a logical name, the last one visited wins.
- When logical names are distinct, the order does not matter.
- A write leaves every record stored under its own logical name.
- A request repeated right after a write therefore reports no change. So
  does one repeated after a request that changed nothing, when the stored
  logical names are distinct.

The model follows the code as written, including where its behaviour is easy
to misread:

- Records other than the requested one are re-stored under their logical
  name, not under their original storage key.
- Removing a certificate record is a silent no-op that still reports
  `changed = true`. It is not an "unsupported operation" failure.
- A write only happens while the object's `changed` flag is still set
  (`Parameter.Write`). `Certificate.Write` writes whenever the stored record
  differs, whatever the flag says.
- Nothing keeps two stored records from sharing a logical name. The code
  resolves such a clash by last-wins over the iteration order.
- Any load failure falls back to `{}`, and the file is overwritten directly,
  with no atomic replace.

## Model

| member | source | states |
|---|---|---|
| `LecmConfig.Load` | library/lecm_global.py:87-93 | a missing, malformed or null file reads as the empty document; a parsed mapping reads as itself |
| `LecmConfig.ConfigFile.Read` | library/lecm_certificate.py:114-120 | the load prologue returns the fallback document of the file's current contents |
| `LecmConfig.ConfigFile.Overwrite` | library/lecm_global.py:103-108 | a write replaces the file's contents with the document and counts one write |
| `LecmGlobal.AsVal` | library/lecm_global.py:96-102 | the stored value is null exactly when no value was given, else the given string |
| `LecmGlobal.SetParam` | library/lecm_global.py:95-102 | changed iff the key is missing or bound to a different value (exact equality); afterwards the key holds the value, every other key is untouched, and an unchanged result is the same document |
| `LecmGlobal.RemoveParam` | library/lecm_global.py:119-129 | changed iff the key is present; afterwards the key is gone and every other key is untouched |
| `LecmGlobal.SetParamIdempotent` | library/lecm_global.py:95-102 | a second identical set request reports no change and keeps the document |
| `LecmGlobal.RemoveParamIdempotent` | library/lecm_global.py:119-129 | a second identical remove request reports no change and keeps the document |
| `LecmGlobal.SetParamBootstrap` | library/lecm_global.py:87-102 | against a missing, malformed or null file, a set request yields a document holding only the requested entry, and reports a change |
| `LecmGlobal.Parameter.constructor` | library/lecm_global.py:79-84 | a request starts with `changed` set |
| `LecmGlobal.Parameter.Write` | library/lecm_global.py:86-108 | `changed` is cleared exactly when the stored value already equals the request; the file is rewritten with `SetParam`'s document, once, exactly when `changed` remains set, and is otherwise untouched |
| `LecmGlobal.Parameter.Remove` | library/lecm_global.py:110-129 | the key is deleted and the file rewritten once when it was present; otherwise `changed` is cleared and nothing is written |
| `LecmGlobal.Parameter.Dump` | library/lecm_global.py:131-138 | the report is exactly the name, the value and `changed` |
| `LecmGlobal.WriteTwice` | library/lecm_global.py:86-108 | two invocations with the same present request: the first reports a change iff the stored value differed, the second reports none, the file holds `SetParam`'s document after a change and is untouched otherwise, and at most one write happens |
| `LecmGlobal.RemoveTwice` | library/lecm_global.py:110-129 | two invocations with the same absent request: the first reports a change iff the key was present, the second reports none, the file holds `RemoveParam`'s document after a change and is untouched otherwise, and at most one write happens |
| `LecmCertificate.Truthy` | library/lecm_certificate.py:111 | a requested attribute is truthy iff it was given (not None) and is a non-empty string |
| `LecmCertificate.Candidate` | library/lecm_certificate.py:30-34 | the candidate holds exactly the vocabulary's attributes whose requested value is truthy, with those values, and never a `name` attribute |
| `LecmCertificate.BuildCandidate` | library/lecm_certificate.py:109-112 | the loop over the vocabulary builds exactly the candidate record |
| `LecmCertificate.CertsOf` | library/lecm_certificate.py:124-136 | a document without a `certificates` key has no records; otherwise the records are the table stored there |
| `LecmCertificate.LogicalName` | library/lecm_certificate.py:127-130 | a record's logical name is its `name` attribute when present, else its storage key |
| `LecmCertificate.PartitionOf` | library/lecm_certificate.py:126-134 | the result of visiting the records in a given order, last visit winning: the requested name is never among the kept records, and every kept record sits under its own logical name |
| `LecmCertificate.Partition` | library/lecm_certificate.py:122-136 | the loop visits every stored record exactly once, in some order, and yields the partition that order determines: the kept logical names are exactly those other than the requested one that some stored record carries, each holding a stored record with that name, and a current record is found iff some stored record carries the requested name |
| `LecmCertificate.PartitionOthers` | library/lecm_certificate.py:131-132 | a logical name other than the requested one is kept iff some record carries it, and it holds the record of the last such record visited |
| `LecmCertificate.PartitionCurrent` | library/lecm_certificate.py:133-134 | a current record is found iff some record carries the requested logical name, and it is the last such record visited |
| `LecmCertificate.NamedIff` | library/lecm_certificate.py:126 | a full iteration visits a record with logical name `l` iff the stored records hold one |
| `LecmCertificate.PartitionDistinct` | library/lecm_certificate.py:126-134 | a record whose logical name no other record shares is kept with identical attributes under its logical name, or, when that name is the requested one, is the record found |
| `LecmCertificate.PartitionOrderIrrelevant` | library/lecm_certificate.py:126 | with one record per logical name, any two iteration orders give the same partition |
| `LecmCertificate.WriteCert` | library/lecm_certificate.py:122-144 | changed iff the record found for the name differs from the candidate (no record found never equals it); an unchanged result is the same document; after a change `certificates[name]` is the candidate; every other top-level key is untouched |
| `LecmCertificate.WriteCertNoMatch` | library/lecm_certificate.py:123-141 | when no stored record carries the requested logical name, a write always happens |
| `LecmCertificate.WriteCertKeys` | library/lecm_certificate.py:131-142 | after a write the storage keys are the requested name and the logical names of the stored records, so an old storage key that is neither disappears |
| `LecmCertificate.WriteCertSiblings` | library/lecm_certificate.py:131-142 | a write keeps every other record whose logical name no other record shares, attributes intact, under its logical name |
| `LecmCertificate.WriteCertNormalizes` | library/lecm_certificate.py:127-142 | after a write every record sits under its own logical name |
| `LecmCertificate.NormalizedDistinct` | library/lecm_certificate.py:127-130 | records stored under their own logical names have distinct logical names |
| `LecmCertificate.WriteCertIdempotent` | library/lecm_certificate.py:109-141 | repeating a request right after a write, in any iteration order, reports no change and keeps the document; so does repeating one that changed nothing, when logical names are distinct |
| `LecmCertificate.WriteCertBootstrap` | library/lecm_certificate.py:114-144 | against a missing, malformed or null file, a request yields a document whose only key is `certificates`, holding only the candidate under the requested name, and reports a change |
| `LecmCertificate.UnchangedScenario` | library/lecm_certificate.py:138-139 | a record `lecm.example.com: {commonName: lecm.example.com}` requested again as it is causes no change |
| `LecmCertificate.RenameScenario` | library/lecm_certificate.py:126-144 | a record stored as `foo` with `name: lecm.example.com` and size 2048, requested with size 4096, becomes `lecm.example.com: {size: 4096}` and `foo` is gone |
| `LecmCertificate.Certificate.constructor` | library/lecm_certificate.py:84-105 | a request starts with `changed` set |
| `LecmCertificate.Certificate.Write` | library/lecm_certificate.py:108-144 | in the iteration order taken, `changed` is cleared iff the found record equals the candidate; otherwise the file is rewritten once with `WriteCert`'s document, and it is untouched when nothing changed |
| `LecmCertificate.Certificate.Remove` | library/lecm_certificate.py:147-149 | removal does nothing: the file and `changed` keep their values |
| `LecmCertificate.Certificate.Dump` | library/lecm_certificate.py:151-158 | the report is exactly the name and `changed` |
| `LecmCertificate.WriteTwice` | library/lecm_certificate.py:108-144 | the first of two invocations with the same present request reports a change iff `WriteCert` does in the order it took; once it wrote the file, or when the stored records have distinct logical names, the second reports no change, the file holds the first run's document (or is untouched if that run changed nothing), and at most one write happens |
| `LecmCertificate.RemoveReport` | library/lecm_certificate.py:147-158 | a request for absence reports `changed = true` and leaves the file and its write count alone |

## Left out

- `main()` in both modules is not modelled. That covers argument parsing and
  defaults (for example `size='4096'`, `remaining_days='10'`), the PyYAML
  import check, the directory check, and `exit_json`/`fail_json`. The
  reconcilers take the request as parameters instead: `name`, the value or
  the attribute map, and the `ConfigFile`.
- YAML parsing and serialisation are abstracted. `Contents` says what
  loading yields, and `Overwrite` stores the document itself. So formatting
  flags, key order in the written file and any loss in the round trip are
  not modelled.
- A failing write (disk full, permissions) is not modelled. The file is
  always overwritten in full.
- A top-level YAML value that is neither a mapping nor null is not modelled.
  The source crashes on it with an uncaught exception.
- A `certificates` entry that is not a mapping is excluded by `WellShaped`.
  The source crashes on it too, with an uncaught exception.
- Record attributes that are not strings are not modelled, and neither are
  nested values other than the certificate table. `Record` is
  `map<string, string>`.
- Certificate records that are not mappings are not modelled. The source
  handles some of them without crashing. A string record tests `'name' in
  parameters` as a substring test: without that substring it is carried
  forward or replaced like any record, and with it the lookup fails. A null
  record makes the source fail with an uncaught error.
- `copy.deepcopy` is left out: Dafny values cannot alias.
- Which order Python 2's dictionary iteration takes is not modelled. The
  order is chosen nondeterministically and returned as a ghost value.
- LecmCertificate.WriteTwice: the second invocation chooses its iteration
  order afresh. So when the first changed nothing and two stored records
  share a logical name, the model does not promise that the second reports
  no change. Python 2 would rebuild the same dictionary from the unchanged
  file and visit it in the same order again.
- The `state` field is left out: only `main()` reads it to dispatch between
  write and remove.
- Locking and concurrent writers are not modelled. The source has none.
