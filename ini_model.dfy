/**
 * The part of a `configparser.ConfigParser` object that the configuration
 * loaders rely on: its sections in first-read order, each with its keys in
 * first-set order, and what one more `read` of a file does to them.
 */
module Ini {
  import opened Common

  datatype Entry = Entry(key: string, value: string)
  datatype Section = Section(name: string, entries: seq<Entry>)

  /** The parser's state: every section it has read so far. */
  type Parser = seq<Section>

  /** The empty `ConfigParser()`. */
  const EmptyParser: Parser := []

  /** The keys of a section, in order. */
  function Keys(entries: seq<Entry>): (ks: seq<string>)
    ensures |ks| == |entries|
    decreases |entries|
  {
    if entries == [] then [] else [entries[0].key] + Keys(entries[1..])
  }

  /** The key list holds each entry's key at that entry's position. */
  lemma {:induction false} KeysAt(entries: seq<Entry>, i: int)
    requires 0 <= i < |entries|
    ensures Keys(entries)[i] == entries[i].key
    decreases |entries|
  {
    if i > 0 {
      KeysAt(entries[1..], i - 1);
    }
  }

  /** `section[key]`: the value of the first entry with this key. */
  function Lookup(entries: seq<Entry>, key: string): (r: Option<string>)
    ensures r.None? <==> key !in Keys(entries)
    ensures r.Some? ==> exists i :: 0 <= i < |entries| && entries[i] == Entry(key, r.value)
  {
    if entries == [] then None
    else if entries[0].key == key then Some(entries[0].value)
    else Lookup(entries[1..], key)
  }

  /** Setting an option: a key already present takes the new value in place; a new key goes last. */
  function SetEntry(entries: seq<Entry>, e: Entry): seq<Entry>
    decreases |entries|
  {
    if entries == [] then [e]
    else if entries[0].key == e.key then [e] + entries[1..]
    else [entries[0]] + SetEntry(entries[1..], e)
  }

  lemma KeysCons(h: Entry, t: seq<Entry>)
    ensures Keys([h] + t) == [h.key] + Keys(t)
  {
    assert ([h] + t)[1..] == t;
  }

  /** Setting an option keeps the key order, adding its key at the end when it is new. */
  lemma {:induction false} SetEntryKeys(entries: seq<Entry>, e: Entry)
    ensures e.key in Keys(entries) ==> Keys(SetEntry(entries, e)) == Keys(entries)
    ensures e.key !in Keys(entries) ==> Keys(SetEntry(entries, e)) == Keys(entries) + [e.key]
    decreases |entries|
  {
    if entries != [] {
      var h, t := entries[0], entries[1..];
      assert entries == [h] + t;
      KeysCons(h, t);
      if h.key == e.key {
        KeysCons(e, t);
      } else {
        SetEntryKeys(t, e);
        KeysCons(h, SetEntry(t, e));
        assert [h.key] + (Keys(t) + [e.key]) == ([h.key] + Keys(t)) + [e.key];
      }
    }
  }

  /** After setting an option, its key reads the new value and every other key reads as before. */
  lemma {:induction false} SetEntryLookup(entries: seq<Entry>, e: Entry, key: string)
    ensures Lookup(SetEntry(entries, e), key) == if key == e.key then Some(e.value) else Lookup(entries, key)
    decreases |entries|
  {
    if entries != [] && entries[0].key != e.key {
      SetEntryLookup(entries[1..], e, key);
      assert ([entries[0]] + SetEntry(entries[1..], e))[1..] == SetEntry(entries[1..], e);
    }
  }

  /** Setting the options of one section in file order. */
  function SetEntries(entries: seq<Entry>, news: seq<Entry>): (r: seq<Entry>)
    decreases |news|
  {
    if news == [] then entries else SetEntries(SetEntry(entries, news[0]), news[1..])
  }

  /** Setting options never removes or moves a key: the old key order is a prefix of the new. */
  lemma {:induction false} SetEntriesKeepsKeys(entries: seq<Entry>, news: seq<Entry>)
    ensures Keys(entries) <= Keys(SetEntries(entries, news))
    decreases |news|
  {
    if news != [] {
      SetEntryKeys(entries, news[0]);
      SetEntriesKeepsKeys(SetEntry(entries, news[0]), news[1..]);
    }
  }

  /**
   * Reading every value of a section with one parser, in key order; the
   * first value that does not parse is what fails.
   */
  function ParseValues<V>(entries: seq<Entry>, parse: string -> Option<V>): Result<seq<V>, Entry>
    decreases |entries|
  {
    if entries == [] then Success([])
    else
      match ParseValues(entries[..|entries| - 1], parse)
      case Failure(e) => Failure(e)
      case Success(vs) =>
        match parse(entries[|entries| - 1].value)
        case None => Failure(entries[|entries| - 1])
        case Some(v) => Success(vs + [v])
  }

  /**
   * The values all parse exactly when the read succeeds, and then it holds each
   * parsed value at its key's position; a failure names the first entry that
   * does not parse.
   */
  lemma {:induction false} ParseValuesSpec<V>(entries: seq<Entry>, parse: string -> Option<V>)
    ensures ParseValues(entries, parse).Success? <==> forall i :: 0 <= i < |entries| ==> parse(entries[i].value).Some?
    ensures ParseValues(entries, parse).Success? ==> (|ParseValues(entries, parse).value| == |entries| &&
      forall i :: 0 <= i < |entries| ==> ParseValues(entries, parse).value[i] == parse(entries[i].value).value)
    ensures ParseValues(entries, parse).Failure? ==>
      exists i :: 0 <= i < |entries| &&
        entries[i] == ParseValues(entries, parse).error && parse(entries[i].value).None? &&
        forall j :: 0 <= j < i ==> parse(entries[j].value).Some?
    decreases |entries|
  {
    if entries != [] {
      var init := entries[..|entries| - 1];
      var last := entries[|entries| - 1];
      ParseValuesSpec(init, parse);
      assert forall i :: 0 <= i < |init| ==> init[i] == entries[i];
      match ParseValues(init, parse)
      case Failure(e) =>
        var i :| 0 <= i < |init| && init[i] == e && parse(init[i].value).None? &&
          forall j :: 0 <= j < i ==> parse(init[j].value).Some?;
        assert entries[i] == e;
      case Success(vs) =>
        if parse(last.value).Some? {
          assert forall i :: 0 <= i < |vs| ==> (vs + [parse(last.value).value])[i] == vs[i];
        }
    }
  }

  function Names(p: Parser): (ns: seq<string>)
    ensures |ns| == |p| && forall i :: 0 <= i < |p| ==> ns[i] == p[i].name
  {
    seq(|p|, i requires 0 <= i < |p| => p[i].name)
  }

  /** `has_section(name)`. */
  predicate HasSection(p: Parser, name: string)
  {
    name in Names(p)
  }

  /** The options of the named section, in order; none when the section is absent. */
  function SectionEntries(p: Parser, name: string): seq<Entry>
  {
    match FirstIndexOf(Names(p), name)
    case Some(i) => p[i].entries
    case None => []
  }

  /** Reading one section: options merge into an existing section of that name, else the section is added last. */
  function ReadSection(p: Parser, s: Section): Parser
  {
    match FirstIndexOf(Names(p), s.name)
    case Some(i) => p[i := Section(p[i].name, SetEntries(p[i].entries, s.entries))]
    case None => p + [Section(s.name, SetEntries([], s.entries))]
  }

  function ReadSections(p: Parser, ss: seq<Section>): Parser
    decreases |ss|
  {
    if ss == [] then p else ReadSections(ReadSection(p, ss[0]), ss[1..])
  }

  /** `read(path)`: a file that cannot be opened (None) is skipped silently; a readable one is merged in. */
  function Read(p: Parser, file: Option<seq<Section>>): Parser
  {
    match file
    case None => p
    case Some(ss) => ReadSections(p, ss)
  }

  /** Reading one section keeps every section and every key, and the read section is then present. */
  lemma ReadSectionKeeps(p: Parser, s: Section, name: string)
    ensures HasSection(ReadSection(p, s), s.name)
    ensures HasSection(p, name) ==> HasSection(ReadSection(p, s), name)
    ensures HasSection(p, name) ==> Keys(SectionEntries(p, name)) <= Keys(SectionEntries(ReadSection(p, s), name))
  {
    var q := ReadSection(p, s);
    match FirstIndexOf(Names(p), s.name)
    case Some(i) =>
      assert Names(q) == Names(p);
      if name == s.name {
        SetEntriesKeepsKeys(p[i].entries, s.entries);
      }
    case None =>
      assert Names(q) == Names(p) + [s.name];
      assert Names(q)[|p|] == s.name;
      if HasSection(p, name) {
        var j := FirstIndexOf(Names(p), name).value;
        assert Names(q)[j] == name;
        assert FirstIndexOf(Names(q), name) == Some(j);
      }
  }

  lemma {:induction false} ReadSectionsKeeps(p: Parser, ss: seq<Section>, name: string)
    ensures HasSection(p, name) ==> HasSection(ReadSections(p, ss), name)
    ensures HasSection(p, name) ==> Keys(SectionEntries(p, name)) <= Keys(SectionEntries(ReadSections(p, ss), name))
    ensures (exists k :: 0 <= k < |ss| && ss[k].name == name) ==> HasSection(ReadSections(p, ss), name)
    decreases |ss|
  {
    if ss != [] {
      var p1 := ReadSection(p, ss[0]);
      ReadSectionKeeps(p, ss[0], name);
      ReadSectionsKeeps(p1, ss[1..], name);
      if exists k :: 0 <= k < |ss| && ss[k].name == name {
        var k :| 0 <= k < |ss| && ss[k].name == name;
        if k > 0 {
          assert ss[1..][k - 1].name == name;
        }
      }
    }
  }

  /**
   * One parser read file after file accumulates: no read removes a section or
   * a key or moves a key, and a section the file holds is present afterwards.
   */
  lemma ReadAccumulates(p: Parser, file: Option<seq<Section>>, name: string)
    ensures HasSection(p, name) ==> HasSection(Read(p, file), name)
    ensures HasSection(p, name) ==> Keys(SectionEntries(p, name)) <= Keys(SectionEntries(Read(p, file), name))
    ensures file.Some? && (exists k :: 0 <= k < |file.value| && file.value[k].name == name) ==>
      HasSection(Read(p, file), name)
  {
    if file.Some? {
      ReadSectionsKeeps(p, file.value, name);
    }
  }
}
