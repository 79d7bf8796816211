/**
 The global parameter reconciler: keeps one top-level `name: value` entry of
 the configuration document present or absent, writing the file only when
 the document actually changes.
 */
module LecmGlobal {
  import opened LecmConfig

  /** The value a parameter request stores: the string given, or null when none was. */
  function AsVal(value: Option<string>): (v: Val)
    ensures v.Null? <==> value.None?
    ensures value.Some? ==> v == Str(value.value)
  {
    match value
    case None => Null
    case Some(s) => Str(s)
  }

  /**
   Reconciles `name` to `v`. Nothing changes when the key is already bound
   to exactly `v` (no coercion: an integer 10 is not the string "10");
   otherwise the key is (re)bound and every other key keeps its value.
   */
  function SetParam(doc: Document, name: string, v: Val): (r: Outcome)
    ensures r.changed <==> !(name in doc && doc[name] == v)
    ensures !r.changed ==> r.doc == doc
    ensures name in r.doc && r.doc[name] == v
    ensures r.doc - {name} == doc - {name}
  {
    if name in doc && doc[name] == v then Outcome(doc, false)
    else Outcome(doc[name := v], true)
  }

  /**
   Reconciles `name` to absent. Nothing changes when the key is missing;
   otherwise it is deleted and every other key keeps its value.
   */
  function RemoveParam(doc: Document, name: string): (r: Outcome)
    ensures r.changed <==> name in doc
    ensures !r.changed ==> r.doc == doc
    ensures name !in r.doc
    ensures r.doc - {name} == doc - {name}
  {
    if name in doc then Outcome(doc - {name}, true) else Outcome(doc, false)
  }

  /** Repeating a set request right after it has been applied changes nothing. */
  lemma SetParamIdempotent(doc: Document, name: string, v: Val)
    ensures var r := SetParam(doc, name, v);
      SetParam(r.doc, name, v) == Outcome(r.doc, false)
  {
  }

  /** Repeating a remove request right after it has been applied changes nothing. */
  lemma RemoveParamIdempotent(doc: Document, name: string)
    ensures var r := RemoveParam(doc, name);
      RemoveParam(r.doc, name) == Outcome(r.doc, false)
  {
  }

  /** A missing, malformed or null file is bootstrapped to a document holding only the request. */
  lemma SetParamBootstrap(c: Contents, name: string, v: Val)
    requires !c.Parsed?
    ensures SetParam(Load(c), name, v) == Outcome(map[name := v], true)
  {
  }

  /** What the module reports back to its caller. */
  datatype ParamReport = ParamReport(name: string, value: Option<string>, changed: bool)

  /** One request about a global parameter. */
  class Parameter {
    const name: string
    const value: Option<string>
    const config: ConfigFile
    var changed: bool

    constructor (name: string, value: Option<string>, config: ConfigFile)
      ensures this.name == name && this.value == value && this.config == config
      ensures changed
    {
      this.name := name;
      this.value := value;
      this.config := config;
      changed := true;
    }

    /**
     State present: clears `changed` when the stored value already equals
     the request; the file is written only while `changed` is still set.
     */
    method Write()
      modifies this, config
      ensures var o := SetParam(old(Load(config.contents)), name, AsVal(value));
        && changed == (old(changed) && o.changed)
        && config.contents == (if changed then Parsed(o.doc) else old(config.contents))
        && config.writes == old(config.writes) + (if changed then 1 else 0)
    {
      var doc := config.Read();
      var v := AsVal(value);
      if name in doc && doc[name] == v {
        changed := false;
      }
      if changed {
        doc := doc[name := v];
        config.Overwrite(doc);
      }
    }

    /**
     State absent: deletes the key and rewrites the file, or clears
     `changed` when the key is not there.
     */
    method Remove()
      modifies this, config
      ensures var o := RemoveParam(old(Load(config.contents)), name);
        && changed == (old(changed) && o.changed)
        && config.contents == (if o.changed then Parsed(o.doc) else old(config.contents))
        && config.writes == old(config.writes) + (if o.changed then 1 else 0)
    {
      var doc := config.Read();
      if name in doc {
        doc := doc - {name};
        config.Overwrite(doc);
      } else {
        changed := false;
      }
    }

    /** The result handed back to the caller: exactly the name, the value and `changed`. */
    function Dump(): (r: ParamReport)
      reads this
      ensures r.name == name && r.value == value && r.changed == changed
    {
      ParamReport(name, value, changed)
    }
  }

  /**
   Two invocations of the module with the same present request: the second
   reports no change and leaves the file as the first left it.
   */
  method WriteTwice(config: ConfigFile, name: string, value: Option<string>)
    returns (first: bool, second: bool)
    modifies config
    ensures first <==> !(name in old(Load(config.contents)) && old(Load(config.contents))[name] == AsVal(value))
    ensures !second
    ensures config.contents ==
      (if first then Parsed(SetParam(old(Load(config.contents)), name, AsVal(value)).doc) else old(config.contents))
    ensures config.writes == old(config.writes) + (if first then 1 else 0)
  {
    var p := new Parameter(name, value, config);
    p.Write();
    first := p.changed;
    var q := new Parameter(name, value, config);
    q.Write();
    second := q.changed;
  }

  /** Two invocations of the module with the same absent request: the second reports no change. */
  method RemoveTwice(config: ConfigFile, name: string)
    returns (first: bool, second: bool)
    modifies config
    ensures first <==> name in old(Load(config.contents))
    ensures !second
    ensures config.contents ==
      (if first then Parsed(RemoveParam(old(Load(config.contents)), name).doc) else old(config.contents))
    ensures config.writes == old(config.writes) + (if first then 1 else 0)
  {
    var p := new Parameter(name, None, config);
    p.Remove();
    first := p.changed;
    var q := new Parameter(name, None, config);
    q.Remove();
    second := q.changed;
  }
}
