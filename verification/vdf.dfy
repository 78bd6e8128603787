/**
 * The Valve KeyValues ("VDF") text that `BuildVdf` writes for Steam's
 * `config.vdf`, `loginusers.vdf` and `local.vdf`.
 *
 * The source builds each document as nested `Dictionary<string, object>`
 * values whose leaves are strings; enumeration order is insertion order, so
 * a section is modelled as an ordered sequence of entries. `Render` is the
 * text the recursive builder appends, `BuildVdfRecursive` the builder itself
 * over a `StringBuilder`, and `ParseEntries` a reader of the same grammar,
 * proved to recover every document whose keys and values hold no `"`.
 */
module Vdf {
  import opened Wrappers
  import opened TextUtil

  datatype Value = Text(text: string) | Section(entries: seq<Entry>)
  datatype Entry = Entry(key: string, value: Value)

  /** `n` copies of `c`. */
  function Repeat(c: char, n: nat): (s: string)
    ensures |s| == n
  {
    if n == 0 then [] else [c] + Repeat(c, n - 1)
  }

  /** The indentation of depth `n`: `sb.Append('\t', n)`. */
  function Tabs(n: nat): (s: string)
    ensures |s| == n
  {
    Repeat('\t', n)
  }

  lemma {:induction false} RepeatAt(c: char, n: nat, i: nat)
    requires i < n
    ensures Repeat(c, n)[i] == c
  {
    if i > 0 {
      RepeatAt(c, n - 1, i - 1);
    }
  }

  /** The text of a run of entries at nesting depth `depth`. */
  function RenderEntries(es: seq<Entry>, depth: nat): string
    decreases es, 2
  {
    if es == [] then [] else RenderEntry(es[0], depth) + RenderEntries(es[1..], depth)
  }

  /** One entry: the quoted key, then either a space and the quoted value on
      the same line, or the children between braces on lines of their own. */
  function RenderEntry(e: Entry, depth: nat): string
    decreases e, 1
  {
    Tabs(depth) + "\"" + EntryBody(e, depth)
  }

  /** An entry after its indentation and opening quote. */
  function EntryBody(e: Entry, depth: nat): string
    decreases e, 0
  {
    e.key + "\"" +
    match e.value
    case Text(t) => " \"" + t + "\"" + NewLine
    case Section(children) =>
      NewLine + Tabs(depth) + "{" + NewLine + RenderEntries(children, depth + 1) + Tabs(depth) + "}" + NewLine
  }

  /** Entries are written one after the other, in sequence order. */
  lemma {:induction false} RenderEntriesAppend(a: seq<Entry>, b: seq<Entry>, depth: nat)
    ensures RenderEntries(a + b, depth) == RenderEntries(a, depth) + RenderEntries(b, depth)
  {
    if a != [] {
      assert (a + b)[0] == a[0];
      assert (a + b)[1..] == a[1..] + b;
      RenderEntriesAppend(a[1..], b, depth);
    } else {
      assert a + b == b;
    }
  }

  /** `System.Text.StringBuilder`, reduced to the text it holds. */
  class StringBuilder {
    var content: string

    constructor()
      ensures content == []
    {
      content := [];
    }

    method Append(s: string)
      modifies this
      ensures content == old(content) + s
    {
      content := content + s;
    }

    /** `Append(c, n)`: `n` copies of `c`. */
    method AppendRepeated(c: char, n: nat)
      modifies this
      ensures content == old(content) + Repeat(c, n)
    {
      content := content + Repeat(c, n);
    }

    /** `AppendLine(s)`: `s` and `Environment.NewLine`. */
    method AppendLine(s: string)
      modifies this
      ensures content == old(content) + s + NewLine
    {
      content := content + s + NewLine;
    }
  }

  /** The appends for a scalar entry add up to its rendering. */
  lemma TextAppends(before: string, key: string, value: string, indent: nat)
    ensures before + Repeat('\t', indent) + "\"" + key + "\"" + " " + "\"" + value + "\"" + "" + NewLine
      == before + RenderEntry(Entry(key, Text(value)), indent)
  {
  }

  /** The appends for a nested entry add up to its rendering. */
  lemma SectionAppends(before: string, key: string, nested: seq<Entry>, indent: nat)
    ensures before + Repeat('\t', indent) + "\"" + key + "\"" + "" + NewLine + Repeat('\t', indent) + "{" + NewLine
        + RenderEntries(nested, indent + 1) + Repeat('\t', indent) + "}" + NewLine
      == before + RenderEntry(Entry(key, Section(nested)), indent)
  {
    var t := Repeat('\t', indent);
    var body := RenderEntries(nested, indent + 1);
    assert RenderEntry(Entry(key, Section(nested)), indent)
      == t + "\"" + (key + "\"" + (NewLine + t + "{" + NewLine + body + t + "}" + NewLine));
    SectionRegroup(before, t, key, body);
  }

  lemma SectionRegroup(before: string, t: string, key: string, body: string)
    ensures before + t + "\"" + key + "\"" + "" + NewLine + t + "{" + NewLine + body + t + "}" + NewLine
      == before + (t + "\"" + (key + "\"" + (NewLine + t + "{" + NewLine + body + t + "}" + NewLine)))
  {
    assert key + "\"" + "" == key + "\"";
  }

  lemma RenderPrefixStep(data: seq<Entry>, i: nat, depth: nat)
    requires i < |data|
    ensures RenderEntries(data[..i + 1], depth) == RenderEntries(data[..i], depth) + RenderEntry(data[i], depth)
  {
    assert data[..i + 1] == data[..i] + [data[i]];
    RenderEntriesAppend(data[..i], [data[i]], depth);
    assert RenderEntries([data[i]], depth) == RenderEntry(data[i], depth) + RenderEntries([], depth);
  }

  /** `BuildVdfRecursive`: appends the entries of `data` at depth `indent`,
      in order. */
  method BuildVdfRecursive(sb: StringBuilder, data: seq<Entry>, indent: nat)
    modifies sb
    ensures sb.content == old(sb.content) + RenderEntries(data, indent)
    decreases data, 1
  {
    ghost var start := sb.content;
    var i := 0;
    while i < |data|
      invariant 0 <= i <= |data|
      invariant sb.content == start + RenderEntries(data[..i], indent)
    {
      AppendEntry(sb, data[i], indent);
      RenderPrefixStep(data, i, indent);
      i := i + 1;
    }
    assert data[..i] == data;
  }

  /** The body of `BuildVdfRecursive`'s loop for one key/value pair. */
  method AppendEntry(sb: StringBuilder, kvp: Entry, indent: nat)
    modifies sb
    ensures sb.content == old(sb.content) + RenderEntry(kvp, indent)
    decreases kvp, 0
  {
    ghost var before := sb.content;
    sb.AppendRepeated('\t', indent);
    sb.Append("\"");
    sb.Append(kvp.key);
    sb.Append("\"");
    match kvp.value {
      case Section(nested) =>
        sb.AppendLine("");
        sb.AppendRepeated('\t', indent);
        sb.AppendLine("{");
        BuildVdfRecursive(sb, nested, indent + 1);
        sb.AppendRepeated('\t', indent);
        sb.AppendLine("}");
        SectionAppends(before, kvp.key, nested, indent);
      case Text(value) =>
        sb.Append(" ");
        sb.Append("\"");
        sb.Append(value);
        sb.Append("\"");
        sb.AppendLine("");
        TextAppends(before, kvp.key, value, indent);
    }
  }

  /** `BuildVdf`: the whole document, top-level entries at depth 0. */
  method BuildVdf(data: seq<Entry>) returns (text: string)
    ensures text == RenderEntries(data, 0)
  {
    var sb := new StringBuilder();
    BuildVdfRecursive(sb, data, 0);
    text := sb.content;
  }

  /** Keys and text values hold no `"`, the one character the writer does not
      escape. */
  predicate QuoteFreeEntries(es: seq<Entry>)
    decreases es
  {
    es == [] || (QuoteFreeEntry(es[0]) && QuoteFreeEntries(es[1..]))
  }

  predicate QuoteFreeEntry(e: Entry)
    decreases e
  {
    '"' !in e.key &&
    match e.value
    case Text(t) => '"' !in t
    case Section(children) => QuoteFreeEntries(children)
  }

  /** Reads the text up to the next `"` and the text after it. */
  function ReadQuoted(s: string): (r: Option<(string, string)>)
    ensures r.Some? ==> '"' !in r.value.0 && s == r.value.0 + "\"" + r.value.1
    ensures r.None? <==> '"' !in s
  {
    if '"' !in s then None
    else
      var k := IndexOfChar(s, '"');
      assert s == s[..k] + "\"" + s[k + 1..];
      Some((s[..k], s[k + 1..]))
  }

  lemma ReadQuotedAt(text: string, rest: string)
    requires '"' !in text
    ensures ReadQuoted(text + ("\"" + rest)) == Some((text, rest))
  {
    var s := text + ("\"" + rest);
    assert s[|text|] == '"';
    assert s[..|text|] == text;
    assert s[|text| + 1..] == rest;
  }

  /** The text after the literal `p`, when `s` opens with it. */
  function Expect(s: string, p: string): (r: Option<string>)
    ensures r.Some? ==> |r.value| == |s| - |p|
  {
    if p <= s then Some(s[|p|..]) else None
  }

  lemma ExpectAt(p: string, rest: string)
    ensures Expect(p + rest, p) == Some(rest)
  {
    assert (p + rest)[|p|..] == rest;
  }

  /** Reads entries at depth `depth` for as long as a line opens with that
      many tabs and a quote; returns them and the unread text. */
  function ParseEntries(s: string, depth: nat): (r: Option<(seq<Entry>, string)>)
    ensures r.Some? ==> |r.value.1| <= |s|
    decreases |s|, 1
  {
    match Expect(s, Tabs(depth) + "\"")
    case None => Some(([], s))
    case Some(afterLead) =>
      match ParseEntry(afterLead, depth)
      case None => None
      case Some((e, rest)) =>
        match ParseEntries(rest, depth)
        case None => None
        case Some((es, rest')) => Some(([e] + es, rest'))
  }

  /** Reads one entry at depth `depth`, after its indentation and opening quote. */
  function ParseEntry(s: string, depth: nat): (r: Option<(Entry, string)>)
    ensures r.Some? ==> |r.value.1| < |s|
    decreases |s|, 0
  {
    match ReadQuoted(s)
    case None => None
    case Some((key, after)) =>
      match Expect(after, " \"")
      case Some(v) =>
        (match ReadQuoted(v)
         case None => None
         case Some((t, rest)) =>
           match Expect(rest, NewLine)
           case None => None
           case Some(rest') => Some((Entry(key, Text(t)), rest')))
      case None =>
        match Expect(after, NewLine + Tabs(depth) + "{" + NewLine)
        case None => None
        case Some(body) =>
          match ParseEntries(body, depth + 1)
          case None => None
          case Some((children, rest)) =>
            match Expect(rest, Tabs(depth) + "}" + NewLine)
            case None => None
            case Some(rest') => Some((Entry(key, Section(children)), rest'))
  }

  /** A whole document: entries at depth 0 and nothing after them. */
  function Parse(s: string): (r: Option<seq<Entry>>)
  {
    match ParseEntries(s, 0)
    case Some((es, rest)) => if rest == [] then Some(es) else None
    case None => None
  }

  /** Reading back what `RenderEntries` wrote, followed by any text that does
      not open another entry at the same depth, gives the entries and leaves
      that text. */
  lemma RenderEntriesCons(e: Entry, es: seq<Entry>, depth: nat, tail: string)
    ensures RenderEntries([e] + es, depth) + tail
      == (Tabs(depth) + "\"") + (EntryBody(e, depth) + (RenderEntries(es, depth) + tail))
  {
    assert ([e] + es)[0] == e;
    assert ([e] + es)[1..] == es;
  }

  /** An entry read after the indentation and quote, followed by the entries
      read after it. */
  lemma ParseEntriesStep(s: string, afterLead: string, depth: nat, e: Entry, rest: string, es: seq<Entry>,
                         all: seq<Entry>, tail: string)
    requires s == (Tabs(depth) + "\"") + afterLead
    requires ParseEntry(afterLead, depth) == Some((e, rest))
    requires ParseEntries(rest, depth) == Some((es, tail))
    requires all == [e] + es
    ensures ParseEntries(s, depth) == Some((all, tail))
  {
    ExpectAt(Tabs(depth) + "\"", afterLead);
  }

  lemma {:induction false} ParseRenderEntries(es: seq<Entry>, depth: nat, tail: string)
    requires QuoteFreeEntries(es)
    requires !(Tabs(depth) + "\"" <= tail)
    ensures ParseEntries(RenderEntries(es, depth) + tail, depth) == Some((es, tail))
    decreases es, 0
  {
    if es == [] {
      assert RenderEntries(es, depth) + tail == tail;
    } else {
      var e, others := es[0], es[1..];
      assert es == [e] + others;
      ParseRenderEntry(e, depth, RenderEntries(others, depth) + tail);
      ParseRenderEntries(others, depth, tail);
      ParseRenderCons(e, others, depth, tail);
    }
  }

  /** The step of `ParseRenderEntries`: the first entry read back, then the
      others. */
  lemma ParseRenderCons(e: Entry, es: seq<Entry>, depth: nat, tail: string)
    requires ParseEntry(EntryBody(e, depth) + (RenderEntries(es, depth) + tail), depth)
      == Some((e, RenderEntries(es, depth) + tail))
    requires ParseEntries(RenderEntries(es, depth) + tail, depth) == Some((es, tail))
    ensures ParseEntries(RenderEntries([e] + es, depth) + tail, depth) == Some(([e] + es, tail))
  {
    var rest := RenderEntries(es, depth) + tail;
    RenderEntriesCons(e, es, depth, tail);
    ParseEntriesStep(RenderEntries([e] + es, depth) + tail, EntryBody(e, depth) + rest, depth, e, rest, es, [e] + es, tail);
  }

  lemma {:induction false} ParseRenderEntry(e: Entry, depth: nat, tail: string)
    requires QuoteFreeEntry(e)
    ensures ParseEntry(EntryBody(e, depth) + tail, depth) == Some((e, tail))
    decreases e, 2
  {
    match e.value {
      case Text(t) =>
        var rest := NewLine + tail;
        var v := t + ("\"" + rest);
        var after := " \"" + v;
        assert EntryBody(e, depth) + tail == e.key + ("\"" + after);
        ReadQuotedAt(e.key, after);
        ExpectAt(" \"", v);
        ReadQuotedAt(t, rest);
        ExpectAt(NewLine, tail);
      case Section(children) =>
        ParseRenderSection(e.key, children, depth, tail);
    }
  }

  lemma SectionBodyShape(key: string, children: seq<Entry>, depth: nat, tail: string)
    ensures EntryBody(Entry(key, Section(children)), depth) + tail
      == key + ("\"" + ((NewLine + Tabs(depth) + "{" + NewLine)
           + (RenderEntries(children, depth + 1) + ((Tabs(depth) + "}" + NewLine) + tail))))
  {
  }

  lemma {:induction false} ParseRenderSection(key: string, children: seq<Entry>, depth: nat, tail: string)
    requires '"' !in key && QuoteFreeEntries(children)
    ensures ParseEntry(EntryBody(Entry(key, Section(children)), depth) + tail, depth)
      == Some((Entry(key, Section(children)), tail))
    decreases children, 1
  {
    var open := NewLine + Tabs(depth) + "{" + NewLine;
    var close := Tabs(depth) + "}" + NewLine;
    var body := RenderEntries(children, depth + 1) + (close + tail);
    var after := open + body;
    SectionBodyShape(key, children, depth, tail);
    ReadQuotedAt(key, after);
    assert !(" \"" <= after) by {
      assert after[0] == '\r';
    }
    ExpectAt(open, body);
    assert !(Tabs(depth + 1) + "\"" <= close + tail) by {
      assert (close + tail)[depth] == '}';
      RepeatAt('\t', depth + 1, depth);
    }
    ParseRenderEntries(children, depth + 1, close + tail);
    ExpectAt(close, tail);
  }

  /** The reader recovers every document the writer produces from quote-free
      keys and values: same keys, same values, same nesting, same order. */
  lemma ParseRender(es: seq<Entry>)
    requires QuoteFreeEntries(es)
    ensures Parse(RenderEntries(es, 0)) == Some(es)
  {
    ParseRenderEntries(es, 0, []);
    assert RenderEntries(es, 0) + [] == RenderEntries(es, 0);
  }

  /** Quote-freedom of a run of entries is quote-freedom of each. */
  lemma {:induction false} QuoteFreeEach(es: seq<Entry>)
    ensures QuoteFreeEntries(es) <==> forall i | 0 <= i < |es| :: QuoteFreeEntry(es[i])
    decreases es
  {
    if es != [] {
      QuoteFreeEach(es[1..]);
      assert forall i | 1 <= i < |es| :: es[i] == es[1..][i - 1];
    }
  }

  /** `dict[key]` on a section: the value of the first entry with that key. */
  function Get(es: seq<Entry>, key: string): Option<Value> {
    if es == [] then None
    else if es[0].key == key then Some(es[0].value)
    else Get(es[1..], key)
  }

  /** The value of the first entry with the key is the one found. */
  lemma {:induction false} GetAt(es: seq<Entry>, i: nat, key: string)
    requires i < |es| && es[i].key == key
    requires forall j | 0 <= j < i :: es[j].key != key
    ensures Get(es, key) == Some(es[i].value)
  {
    if i > 0 {
      GetAt(es[1..], i - 1, key);
    }
  }

  /** Lookup along a path of keys through nested sections. */
  function Lookup(es: seq<Entry>, path: seq<string>): (r: Option<Value>)
    requires path != []
    decreases |path|
  {
    match Get(es, path[0])
    case None => None
    case Some(v) =>
      if |path| == 1 then Some(v)
      else match v
        case Text(_) => None
        case Section(children) => Lookup(children, path[1..])
  }
}
