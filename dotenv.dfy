/**
 * The `.env` file format of `_load_dotenv`: one `key=value` pair per line,
 * blank lines and `#` comments skipped, lines without `=` ignored, later
 * keys overriding earlier ones, and an unreadable file read as empty.
 */
module Dotenv {
  import opened Wrappers
  import opened Text

  /** One `key=value` pair as it is stored in the parsed mapping. */
  datatype Entry = Entry(key: string, value: string)

  /**
   * The `.env` file as `_load_dotenv` finds it: absent, present but failing to
   * read or decode as UTF-8, or present with the given text.
   */
  datatype DotenvFile = Missing | Unreadable | Present(text: string)

  /**
   * One line of the loop body. A line contributes an entry exactly when, once
   * stripped, it is not empty, does not begin with `#` and contains `=`; the
   * entry is then the stripped text before the first `=` and the stripped
   * text after it.
   */
  function ParseLine(line: string): (r: Option<Entry>)
    ensures r.None? <==> Strip(line) == [] || Strip(line)[0] == '#' || '=' !in line
    ensures r.Some? ==> exists k, v :: Strip(line) == k + "=" + v && '=' !in k && r.value == Entry(Strip(k), Strip(v))
  {
    StripKeepsNonSpace(line, '=');
    var l := Strip(line);
    if l == [] || l[0] == '#' then None
    else if '=' in l then
      var (k, v) := SplitFirst(l);
      Some(Entry(Strip(k), Strip(v)))
    else None
  }

  /** Whether a parsed line is an entry for `key`. */
  predicate Defines(e: Option<Entry>, key: string) {
    e.Some? && e.value.key == key
  }

  /** The mapping the loop builds from a sequence of parsed lines, taken in order. */
  function Collect(entries: seq<Option<Entry>>): map<string, string>
    decreases |entries|
  {
    if entries == [] then map[]
    else
      var m := Collect(entries[..|entries| - 1]);
      match entries[|entries| - 1]
      case None => m
      case Some(e) => m[e.key := e.value]
  }

  /** Each line of the file, parsed. */
  function Entries(lines: seq<string>): (r: seq<Option<Entry>>)
    ensures |r| == |lines|
  {
    seq(|lines|, i requires 0 <= i < |lines| => ParseLine(lines[i]))
  }

  lemma EntriesAppend(a: seq<string>, b: seq<string>)
    ensures Entries(a + b) == Entries(a) + Entries(b)
  {
    var ab := a + b;
    forall k | 0 <= k < |ab| ensures Entries(ab)[k] == (Entries(a) + Entries(b))[k] {
      if k < |a| {
        assert ab[k] == a[k];
      } else {
        assert ab[k] == b[k - |a|];
      }
    }
  }

  /** The mapping the loop has built after the given lines. */
  function ParseLines(lines: seq<string>): map<string, string> {
    Collect(Entries(lines))
  }

  /** The mapping `_load_dotenv` produces for the file as it found it. */
  function DotenvMap(file: DotenvFile): map<string, string> {
    match file
    case Missing => map[]
    case Unreadable => map[]
    case Present(text) => ParseLines(SplitLines(text))
  }

  /** The loop body's three outcomes for one line, in terms of what it computes. */
  lemma ParseLineOutcome(line: string)
    ensures Strip(line) == [] || Strip(line)[0] == '#' ==> ParseLine(line) == None
    ensures Strip(line) != [] && Strip(line)[0] != '#' && '=' !in Strip(line) ==> ParseLine(line) == None
    ensures Strip(line) != [] && Strip(line)[0] != '#' && '=' in Strip(line) ==>
      ParseLine(line) == Some(Entry(Strip(SplitFirst(Strip(line)).0), Strip(SplitFirst(Strip(line)).1)))
  {
  }

  /** One more parsed line: the mapping so far, updated with that line's entry if it has one. */
  lemma CollectStep(entries: seq<Option<Entry>>, n: nat)
    requires 0 < n <= |entries|
    ensures entries[n - 1].None? ==> Collect(entries[..n]) == Collect(entries[..n - 1])
    ensures entries[n - 1].Some? ==>
      Collect(entries[..n]) == Collect(entries[..n - 1])[entries[n - 1].value.key := entries[n - 1].value.value]
  {
    assert entries[..n][..n - 1] == entries[..n - 1];
  }

  /**
   * One iteration of the parsing loop: the mapping after line `i` is the one
   * before it, updated with the stripped parts around the first `=` when the
   * stripped line is neither blank, a comment, nor free of `=`.
   */
  lemma ParseStep(lines: seq<string>, i: nat, result: map<string, string>)
    requires i < |lines| && result == Collect(Entries(lines)[..i])
    ensures Strip(lines[i]) == [] || Strip(lines[i])[0] == '#' || '=' !in Strip(lines[i]) ==>
      Collect(Entries(lines)[..i + 1]) == result
    ensures Strip(lines[i]) != [] && Strip(lines[i])[0] != '#' && '=' in Strip(lines[i]) ==>
      Collect(Entries(lines)[..i + 1]) == result[Strip(SplitFirst(Strip(lines[i])).0) := Strip(SplitFirst(Strip(lines[i])).1)]
  {
    var entries := Entries(lines);
    assert entries[i] == ParseLine(lines[i]);
    CollectStep(entries, i + 1);
    ParseLineOutcome(lines[i]);
  }

  /** The parsing loop of `_load_dotenv`, over the lines of a file that was read. */
  method ParseDotenv(text: string) returns (result: map<string, string>)
    ensures result == ParseLines(SplitLines(text))
  {
    var lines := SplitLines(text);
    result := map[];
    var i := 0;
    while i < |lines|
      invariant 0 <= i <= |lines|
      invariant result == Collect(Entries(lines)[..i])
    {
      ParseStep(lines, i, result);
      var line := Strip(lines[i]);
      if line == [] || line[0] == '#' {
        i := i + 1;
        continue;
      }
      if '=' in line {
        var (key, value) := SplitFirst(line);
        result := result[Strip(key) := Strip(value)];
      }
      i := i + 1;
    }
    assert Entries(lines)[..i] == Entries(lines);
  }

  /** A key is in the mapping exactly when some line defines it. */
  lemma {:induction false} CollectDomain(entries: seq<Option<Entry>>, key: string)
    ensures key in Collect(entries) <==> exists i :: 0 <= i < |entries| && Defines(entries[i], key)
    decreases |entries|
  {
    if entries != [] {
      var init := entries[..|entries| - 1];
      CollectDomain(init, key);
      if key in Collect(init) {
        var i :| 0 <= i < |init| && Defines(init[i], key);
        assert entries[i] == init[i];
      }
      if exists i :: 0 <= i < |entries| && Defines(entries[i], key) {
        var i :| 0 <= i < |entries| && Defines(entries[i], key);
        if i < |init| {
          assert init[i] == entries[i];
        }
      }
    }
  }

  /**
   * Last one wins: the value stored for a key is the one on the last line that
   * defines it, whatever earlier lines said.
   */
  lemma {:induction false} CollectLastWins(entries: seq<Option<Entry>>, i: nat)
    requires i < |entries| && entries[i].Some?
    requires forall j :: i < j < |entries| ==> !Defines(entries[j], entries[i].value.key)
    ensures entries[i].value.key in Collect(entries)
    ensures Collect(entries)[entries[i].value.key] == entries[i].value.value
    decreases |entries|
  {
    var init := entries[..|entries| - 1];
    if i < |entries| - 1 {
      assert init[i] == entries[i];
      forall j | i < j < |init| ensures !Defines(init[j], init[i].value.key) {
        assert init[j] == entries[j];
      }
      CollectLastWins(init, i);
      assert !Defines(entries[|entries| - 1], entries[i].value.key);
    }
  }

  /** Lines that contribute nothing can be removed from anywhere without changing the mapping. */
  lemma {:induction false} CollectSkipsNone(before: seq<Option<Entry>>, after: seq<Option<Entry>>)
    ensures Collect(before + [None] + after) == Collect(before + after)
    decreases |after|
  {
    var with := before + [None] + after;
    var without := before + after;
    if after == [] {
      assert with[..|with| - 1] == before;
      assert without == before;
    } else {
      var init := after[..|after| - 1];
      assert with[..|with| - 1] == before + [None] + init;
      assert without[..|without| - 1] == before + init;
      assert with[|with| - 1] == without[|without| - 1];
      CollectSkipsNone(before, init);
    }
  }

  /** On the lines of a file: a key is parsed exactly when some line of the file defines it. */
  lemma ParseLinesDomain(lines: seq<string>, key: string)
    ensures key in ParseLines(lines) <==> exists i :: 0 <= i < |lines| && Defines(ParseLine(lines[i]), key)
  {
    var entries := Entries(lines);
    CollectDomain(entries, key);
    if key in ParseLines(lines) {
      var i :| 0 <= i < |entries| && Defines(entries[i], key);
      assert entries[i] == ParseLine(lines[i]);
    }
    if exists i :: 0 <= i < |lines| && Defines(ParseLine(lines[i]), key) {
      var i :| 0 <= i < |lines| && Defines(ParseLine(lines[i]), key);
      assert entries[i] == ParseLine(lines[i]);
    }
  }

  /** Lines after `i` that define no entry for `key` give parsed lines that define none either. */
  lemma EntriesDefineNone(lines: seq<string>, i: nat, key: string)
    requires forall j :: i < j < |lines| ==> !Defines(ParseLine(lines[j]), key)
    ensures forall j :: i < j < |lines| ==> !Defines(Entries(lines)[j], key)
  {
    forall j | i < j < |lines| ensures !Defines(Entries(lines)[j], key) {
      assert Entries(lines)[j] == ParseLine(lines[j]);
    }
  }

  /** On the lines of a file: the value of a key is the one on the last line that defines it. */
  lemma ParseLinesLastWins(lines: seq<string>, i: nat, e: Entry)
    requires i < |lines| && ParseLine(lines[i]) == Some(e)
    requires forall j :: i < j < |lines| ==> !Defines(ParseLine(lines[j]), e.key)
    ensures e.key in ParseLines(lines) && ParseLines(lines)[e.key] == e.value
  {
    EntriesDefineNone(lines, i, e.key);
    assert Entries(lines)[i] == Some(e);
    CollectLastWins(Entries(lines), i);
  }

  /** On the lines of a file: a blank, comment or `=`-less line can be dropped from anywhere. */
  lemma ParseLinesSkipsIgnored(before: seq<string>, line: string, after: seq<string>)
    requires ParseLine(line).None?
    ensures ParseLines(before + [line] + after) == ParseLines(before + after)
  {
    EntriesAppend(before + [line], after);
    EntriesAppend(before, [line]);
    EntriesAppend(before, after);
    assert Entries([line]) == [None];
    CollectSkipsNone(Entries(before), Entries(after));
  }

  /** The `key=value` text of an entry. */
  function FormatEntry(e: Entry): string {
    e.key + "=" + e.value
  }

  /**
   * An entry written as `key=value` can be read back, provided the key and value
   * need no stripping and the key holds no `=` and does not start a comment; the
   * key may be empty.
   */
  predicate Writable(e: Entry) {
    (e.key == [] || e.key[0] != '#') && '=' !in e.key && Stripped(e.key) && Stripped(e.value)
  }

  /** A line that needs no stripping and holds an entry is split at its first `=`. */
  lemma ParseLineOfStripped(l: string)
    requires Stripped(l) && l != [] && l[0] != '#' && '=' in l
    ensures ParseLine(l) == Some(Entry(Strip(SplitFirst(l).0), Strip(SplitFirst(l).1)))
  {
    StripOfStripped(l);
  }

  /** Reading back a written entry yields that entry; in particular the value may contain `=`. */
  lemma ParseFormatRoundTrip(e: Entry)
    requires Writable(e)
    ensures ParseLine(FormatEntry(e)) == Some(e)
  {
    var line := FormatEntry(e);
    assert line[0] == if e.key == [] then '=' else e.key[0];
    assert line[|line| - 1] == if e.value == [] then '=' else e.value[|e.value| - 1];
    assert line[|e.key|] == '=';
    ParseLineOfStripped(line);
    StripOfStripped(e.key);
    StripOfStripped(e.value);
    SplitFirstUnique(e.key, e.value);
  }
}
