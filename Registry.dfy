/**
 * The client registry: a local text file holding one client name per line.
 * `load_clients` reads the whole file and splits it into lines the way Python's
 * `str.splitlines` does; `save_client` appends a name and a newline when the
 * name is non-empty and not yet one of the lines.
 *
 * The file is modelled as `Option<string>`: `None` when it does not exist,
 * otherwise the text a text-mode read of it returns.
 */
module ClientRegistry {
  import opened Wrappers

  /** The line boundaries recognised by Python's `str.splitlines`. */
  predicate IsLineBreak(c: char) {
    c == '\n' || c == '\r' || c == '\U{B}' || c == '\U{C}' ||
    c == '\U{1C}' || c == '\U{1D}' || c == '\U{1E}' || c == '\U{85}' ||
    c == '\U{2028}' || c == '\U{2029}'
  }

  predicate NoLineBreak(s: string) {
    forall k :: 0 <= k < |s| ==> !IsLineBreak(s[k])
  }

  /** Index of the first line boundary in `s`, or `|s|` when there is none. */
  function LineEnd(s: string): (i: nat)
    ensures i <= |s|
    ensures forall k :: 0 <= k < i ==> !IsLineBreak(s[k])
    ensures i < |s| ==> IsLineBreak(s[i])
  {
    if s == [] then 0
    else if IsLineBreak(s[0]) then 0
    else 1 + LineEnd(s[1..])
  }

  /** Width of the boundary at `i`: "\r\n" is one boundary of two characters. */
  function BreakWidth(s: string, i: nat): (w: nat)
    requires i < |s|
    ensures 1 <= w <= |s| - i
  {
    if s[i] == '\r' && i + 1 < |s| && s[i + 1] == '\n' then 2 else 1
  }

  /**
   * `str.splitlines()`: the pieces between line boundaries; a final boundary
   * does not start an extra empty line, and the empty text has no lines.
   */
  function SplitLines(text: string): (lines: seq<string>)
    ensures lines == [] <==> text == []
    ensures |lines| <= |text|
    decreases |text|
  {
    if text == [] then []
    else if LineEnd(text) == |text| then [text]
    else [text[..LineEnd(text)]] + SplitLines(AfterFirstLine(text))
  }

  /** What follows the first line boundary of `text`. */
  function AfterFirstLine(text: string): (rest: string)
    requires LineEnd(text) < |text|
    ensures |rest| < |text|
  {
    text[LineEnd(text) + BreakWidth(text, LineEnd(text))..]
  }

  /** The text of a file written one line at a time, each line followed by "\n". */
  function JoinLines(lines: seq<string>): string {
    if lines == [] then "" else lines[0] + "\n" + JoinLines(lines[1..])
  }

  /** `load_clients`: the file's lines, or no lines when the file does not exist. */
  function LoadClients(file: Option<string>): (clients: seq<string>)
    ensures clients == [] <==> file.None? || file.value == ""
    ensures |clients| <= |file.GetOr("")|
  {
    match file
    case None => []
    case Some(text) => SplitLines(text)
  }

  /** The guard of `save_client`: a non-empty name that is not already a line. */
  predicate Accepts(clients: seq<string>, name: string) {
    name != "" && name !in clients
  }

  /** The file after appending `name` and a newline; append mode creates a missing file. */
  function Appended(file: Option<string>, name: string): (after: Option<string>)
    ensures after.Some?
    ensures |after.value| == |file.GetOr("")| + |name| + 1
    ensures after.value[..|file.GetOr("")|] == file.GetOr("")
    ensures after.value[|file.GetOr("")|..] == name + "\n"
  {
    Some(file.GetOr("") + name + "\n")
  }

  /** A file whose next appended line starts a line of its own. */
  predicate Terminated(file: Option<string>) {
    match file
    case None => true
    case Some(text) => text == [] || IsLineBreak(text[|text| - 1])
  }

  predicate Distinct(s: seq<string>) {
    forall i, j :: 0 <= i < j < |s| ==> s[i] != s[j]
  }

  /** The registry file; `SaveClient` changes it in place. */
  class ClientFile {
    var file: Option<string>

    constructor (file: Option<string>)
      ensures this.file == file
    {
      this.file := file;
    }

    /** `save_client`: appends `name` as a new line exactly when the registry accepts it. */
    method SaveClient(name: string) returns (added: bool)
      modifies this
      ensures added <==> Accepts(LoadClients(old(file)), name)
      ensures added ==> file == Appended(old(file), name)
      ensures !added ==> file == old(file)
      ensures added && Terminated(old(file)) && NoLineBreak(name) ==>
                LoadClients(file) == LoadClients(old(file)) + [name] && Terminated(file)
      ensures Distinct(LoadClients(old(file))) && Terminated(old(file)) && NoLineBreak(name) ==>
                Distinct(LoadClients(file)) && Terminated(file)
    {
      var current := LoadClients(file);
      if name != "" && name !in current {
        file := Appended(file, name);
        added := true;
      } else {
        added := false;
      }
      if Terminated(old(file)) && NoLineBreak(name) {
        if added {
          SaveExtendsRegistry(old(file), name);
        }
        if Distinct(LoadClients(old(file))) {
          SaveKeepsDistinct(old(file), name);
        }
      }
    }
  }

  lemma {:induction false} LineEndOfLine(l: string, rest: string)
    requires NoLineBreak(l)
    ensures LineEnd(l + "\n" + rest) == |l|
    decreases |l|
  {
    var s := l + "\n" + rest;
    if l != [] {
      assert s[1..] == l[1..] + "\n" + rest;
      LineEndOfLine(l[1..], rest);
    }
  }

  /** Splitting the text of a file written line by line gives back its lines. */
  lemma {:induction false} SplitJoin(lines: seq<string>)
    requires forall l :: l in lines ==> NoLineBreak(l)
    ensures SplitLines(JoinLines(lines)) == lines
  {
    if lines != [] {
      var rest := JoinLines(lines[1..]);
      var text := lines[0] + "\n" + rest;
      LineEndOfLine(lines[0], rest);
      assert text[..|lines[0]|] == lines[0];
      assert text[|lines[0]| + 1..] == rest;
      SplitJoin(lines[1..]);
    }
  }

  /** No line that `str.splitlines` returns contains a line boundary. */
  lemma {:induction false} SplitLinesHaveNoBreaks(text: string)
    ensures forall l :: l in SplitLines(text) ==> NoLineBreak(l)
    decreases |text|
  {
    if text != [] && LineEnd(text) < |text| {
      SplitLinesHaveNoBreaks(AfterFirstLine(text));
    }
  }

  /** The first boundary of `s` is also the first boundary of `s + t`. */
  lemma {:induction false} LineEndPrefix(s: string, t: string)
    requires LineEnd(s) < |s|
    ensures LineEnd(s + t) == LineEnd(s)
    decreases |s|
  {
    if !IsLineBreak(s[0]) {
      assert (s + t)[1..] == s[1..] + t;
      LineEndPrefix(s[1..], t);
    }
  }

  /**
   * Text that ends in a line boundary splits independently of what follows it,
   * unless a trailing "\r" would pair with a leading "\n".
   */
  lemma {:induction false} SplitLinesConcat(s: string, t: string)
    requires s == [] || IsLineBreak(s[|s| - 1])
    requires s != [] && s[|s| - 1] == '\r' ==> t == [] || t[0] != '\n'
    ensures SplitLines(s + t) == SplitLines(s) + SplitLines(t)
    decreases |s|
  {
    if s == [] {
      assert s + t == t;
    } else {
      var s' := AfterFirstLine(s);
      var head := [s[..LineEnd(s)]];
      FirstLineOfConcat(s, t);
      AfterFirstLineKeepsLast(s);
      SplitLinesConcat(s', t);
      var rest, tail := SplitLines(s'), SplitLines(t);
      assert head + (rest + tail) == (head + rest) + tail;
    }
  }

  /** Splitting `s + t` starts with the first line of `s` and continues after its boundary. */
  lemma FirstLineOfConcat(s: string, t: string)
    requires s != [] && IsLineBreak(s[|s| - 1])
    requires s[|s| - 1] == '\r' ==> t == [] || t[0] != '\n'
    ensures LineEnd(s) < |s| && LineEnd(s + t) == LineEnd(s)
    ensures SplitLines(s + t) == [s[..LineEnd(s)]] + SplitLines(AfterFirstLine(s) + t)
  {
    var i := LineEnd(s);
    LineEndPrefix(s, t);
    BreakWidthPrefix(s, t, i);
    assert (s + t)[..i] == s[..i];
    assert AfterFirstLine(s + t) == AfterFirstLine(s) + t;
  }

  /** Dropping the first line keeps the last character of a text that has more than one line. */
  lemma AfterFirstLineKeepsLast(s: string)
    requires LineEnd(s) < |s|
    ensures AfterFirstLine(s) == [] || AfterFirstLine(s)[|AfterFirstLine(s)| - 1] == s[|s| - 1]
  {
  }

  /** The boundary at `i` has the same width in `s + t`, under the same "\r\n" proviso. */
  lemma BreakWidthPrefix(s: string, t: string, i: nat)
    requires i < |s|
    requires s[|s| - 1] == '\r' ==> t == [] || t[0] != '\n'
    ensures BreakWidth(s + t, i) == BreakWidth(s, i)
  {
  }

  /** After a successful save of a one-line name, loading returns the old lines followed by it. */
  lemma SaveExtendsRegistry(file: Option<string>, name: string)
    requires Terminated(file) && name != "" && NoLineBreak(name)
    ensures LoadClients(Appended(file, name)) == LoadClients(file) + [name]
    ensures Terminated(Appended(file, name))
  {
    var body := file.GetOr("");
    var line := name + "\n";
    var after := Appended(file, name);
    assert body + name + "\n" == body + line;
    assert SplitLines(line) == [name] by {
      SplitJoin([name]);
      assert JoinLines([name]) == line;
    }
    assert SplitLines(body + line) == SplitLines(body) + [name] by {
      assert body == [] || IsLineBreak(body[|body| - 1]);
      assert line[0] == name[0] && !IsLineBreak(name[0]);
      SplitLinesConcat(body, line);
    }
    assert LoadClients(after) == SplitLines(body + line);
    assert LoadClients(file) == SplitLines(body);
    assert (body + line)[|body + line| - 1] == '\n';
  }

  /** `save_client` never creates a duplicate in a registry that has none. */
  lemma SaveKeepsDistinct(file: Option<string>, name: string)
    requires Terminated(file) && NoLineBreak(name) && Distinct(LoadClients(file))
    ensures var after := if Accepts(LoadClients(file), name) then Appended(file, name) else file;
            Distinct(LoadClients(after)) && Terminated(after)
  {
    if Accepts(LoadClients(file), name) {
      SaveExtendsRegistry(file, name);
    }
  }

  /**
   * Saving the same name twice: the second save is refused and the name
   * occurs exactly once.
   */
  lemma SaveTwiceLeavesOne(file: Option<string>, name: string)
    requires Terminated(file) && NoLineBreak(name) && Accepts(LoadClients(file), name)
    ensures var after := Appended(file, name);
            !Accepts(LoadClients(after), name) && multiset(LoadClients(after))[name] == 1
  {
    SaveExtendsRegistry(file, name);
  }

  /** Saving into a missing file creates a registry holding only that name. */
  lemma SaveIntoMissingFile(name: string)
    requires name != "" && NoLineBreak(name)
    ensures Accepts(LoadClients(None), name)
    ensures LoadClients(Appended(None, name)) == [name]
  {
    SaveExtendsRegistry(None, name);
  }

  /**
   * A file whose last line lacks its newline: the appended name is glued to
   * that line rather than added as a line of its own.
   */
  lemma UnterminatedFileMergesLines()
    ensures Accepts(LoadClients(Some("Acme")), "Beta")
    ensures LoadClients(Appended(Some("Acme"), "Beta")) == ["AcmeBeta"]
  {
    assert LineEnd("Acme") == 4;
    assert LoadClients(Some("Acme")) == ["Acme"];
    SplitJoin(["AcmeBeta"]);
    assert JoinLines(["AcmeBeta"]) == "AcmeBeta" + "\n";
    assert "Acme" + "Beta" + "\n" == "AcmeBeta" + "\n";
  }

  /**
   * A name holding a line boundary is accepted, because it is compared with the
   * lines as one string, but it is written as several lines: "a\na" saved into
   * a missing file loads as a duplicate pair.
   */
  lemma MultiLineNameDuplicates()
    ensures Accepts(LoadClients(None), "a\na")
    ensures LoadClients(Appended(None, "a\na")) == ["a", "a"]
    ensures !Distinct(LoadClients(Appended(None, "a\na")))
  {
    var text := "a\na\n";
    assert Appended(None, "a\na").value == text;
    assert LineEnd(text) == 1;
    assert AfterFirstLine(text) == "a\n";
    assert LineEnd("a\n") == 1;
    assert AfterFirstLine("a\n") == [];
    assert "a\n"[..1] == "a";
    assert SplitLines("a\n") == ["a"] + SplitLines([]);
    assert text[..1] == "a";
    assert SplitLines(text) == ["a"] + SplitLines("a\n");
    var lines := LoadClients(Appended(None, "a\na"));
    assert lines[0] == lines[1];
  }

  /** After "a\nb" is saved, which loads as the lines "a" and "b", saving it again is accepted too. */
  lemma MultiLineNameAcceptedTwice()
    ensures Accepts(LoadClients(None), "a\nb")
    ensures LoadClients(Appended(None, "a\nb")) == ["a", "b"]
    ensures Accepts(LoadClients(Appended(None, "a\nb")), "a\nb")
  {
    var text := "a\nb\n";
    assert Appended(None, "a\nb").value == text;
    assert LineEnd(text) == 1;
    assert AfterFirstLine(text) == "b\n";
    assert LineEnd("b\n") == 1;
    assert AfterFirstLine("b\n") == [];
    assert "b\n"[..1] == "b";
    assert SplitLines("b\n") == ["b"] + SplitLines([]);
    assert text[..1] == "a";
    assert SplitLines(text) == ["a"] + SplitLines("b\n");
  }

  /** `add_client` calling `save_client` twice on a missing file: added, then refused. */
  method SaveTwiceFromMissingFile(name: string) returns (first: bool, second: bool, clients: seq<string>)
    requires NoLineBreak(name)
    ensures first <==> name != ""
    ensures !second
    ensures clients == if name == "" then [] else [name]
  {
    var registry := new ClientFile(None);
    first := registry.SaveClient(name);
    second := registry.SaveClient(name);
    clients := LoadClients(registry.file);
  }
}
