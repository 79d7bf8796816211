/**
 The lecm configuration document, as both reconcilers see it once it has
 been read from disk, and the file that holds it.

 The YAML text itself is not modelled: a file either fails to load
 (missing or malformed), loads as YAML null (an empty file), or loads as a
 top-level mapping. Writing a document replaces the file's contents with
 that document.
 */
module LecmConfig {

  datatype Option<T> = None | Some(value: T)

  /** A certificate record: attribute name to attribute value. */
  type Record = map<string, string>

  /** A value stored under a top-level key of the document. */
  datatype Val =
    | Str(s: string)                  // a string scalar
    | Null                            // YAML null, Python's None
    | Scalar(text: string)            // any other scalar (integer, boolean, ...), by its YAML text
    | Table(rows: map<string, Record>) // a mapping of records, as kept under "certificates"

  /** The top-level mapping of the configuration file. */
  type Document = map<string, Val>

  /** The reserved top-level key that holds the certificate records. */
  const CERTIFICATES: string := "certificates"

  /** What reading and parsing the configuration file yields. */
  datatype Contents =
    | Missing             // the file cannot be opened
    | Malformed           // the file is not valid YAML
    | Empty               // the file parses to null (for example, it is empty)
    | Parsed(doc: Document)

  /** The outcome of one reconciliation: the document to keep and whether it changed. */
  datatype Outcome = Outcome(doc: Document, changed: bool)

  /** The load prologue both reconcilers share: anything but a parsed mapping reads as `{}`. */
  function Load(c: Contents): (doc: Document)
    ensures c == Missing || c == Malformed || c == Empty ==> doc == map[]
    ensures c.Parsed? ==> doc == c.doc
  {
    match c
    case Parsed(d) => d
    case _ => map[]
  }

  /** The configuration file at the module's `config` path. */
  class ConfigFile {
    var contents: Contents
    /** How many times the file has been (re)written. */
    ghost var writes: nat

    constructor (initial: Contents)
      ensures contents == initial && writes == 0
    {
      contents := initial;
      writes := 0;
    }

    /** Opens, parses and falls back to the empty document. */
    method Read() returns (doc: Document)
      ensures doc == Load(contents)
    {
      doc := Load(contents);
    }

    /** Truncates the file and writes the serialised document. */
    method Overwrite(doc: Document)
      modifies this
      ensures contents == Parsed(doc)
      ensures writes == old(writes) + 1
    {
      contents := Parsed(doc);
      writes := writes + 1;
    }
  }
}
