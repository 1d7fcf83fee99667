/**
 The reStructuredText generator for the plugin reference (gen_plugins_doc.py):
 it reads back the HTML help that `WithParameter.GenerateDoc` renders for each
 parameter, turns HTML tags into reST substitutions, maps type labels to
 Python cross-references, builds the parameter table and writes the Python
 calling snippet of a plugin.
 */
module PluginDoc {
  import opened Wrappers
  import opened Strs
  import WithParameter

  const Nbsp: char := '\U{A0}'

  const HelpTag: string := "<p class=\"help\">"
  const TypeTag: string := "<b>type</b><td class=\"b\">"
  const ValuesTag: string := "<b>values</b><td class=\"b\">"
  const CellEnd: string := "</td>"
  const DoublePrecision: string := " (double precision)"

  // ---------------------------------------------------------------------
  // Python slicing

  /** A Python slice bound: negative bounds count from the end, then clamp. */
  function SliceBound(i: int, n: nat): (r: nat)
    ensures r <= n
    ensures 0 <= i <= n ==> r == i
    ensures i < 0 && i + n >= 0 ==> r == i + n
  {
    if i < 0 then (if i + n < 0 then 0 else i + n)
    else if i > n then n
    else i
  }

  /** Python's `s[lo:hi]`. */
  function PySlice(s: string, lo: int, hi: int): (r: string)
    ensures 0 <= lo <= hi <= |s| ==> r == s[lo..hi]
    ensures 0 <= hi <= lo ==> r == ""
    ensures |r| <= |s|
  {
    var a := SliceBound(lo, |s|);
    var b := SliceBound(hi, |s|);
    if b <= a then "" else s[a..b]
  }

  // ---------------------------------------------------------------------
  // HTML tags to reST substitutions

  /** `re.sub('^' + pat, rep, s)`: replace `pat` once, and only at the very start. */
  function SubAtStart(s: string, pat: string, rep: string): (r: string)
    ensures StartsWith(s, pat) ==> r == rep + s[|pat|..]
    ensures !StartsWith(s, pat) ==> r == s
  {
    if StartsWith(s, pat) then rep + s[|pat|..] else s
  }

  function Upper(c: char): char
  {
    if 'a' <= c <= 'z' then (c as int - 32) as char else c
  }

  function UpperStr(s: string): (r: string)
    ensures |r| == |s|
  {
    seq(|s|, i requires 0 <= i < |s| => Upper(s[i]))
  }

  function Open(tag: string): string { "<" + tag + ">" }
  function Close(tag: string): string { "</" + tag + ">" }
  function Sub(name: string): string { "|" + name + "|" }

  /**
   `replaceHtmlTags(doc, tag, start, end)`: an opening or closing tag (lower or
   upper case) at the very start becomes `|start| ` or `|end| `; every other
   occurrence becomes ` |start| ` or ` |end| `.
   */
  function ReplaceHtmlTags(doc: string, tag: string, start: string, end: string): string
  {
    InnerSubs(LeadSubs(doc, tag, start, end), tag, start, end)
  }

  /** The four substitutions anchored at the start of the text. */
  function LeadSubs(doc: string, tag: string, start: string, end: string): string
  {
    var up := UpperStr(tag);
    var t0 := SubAtStart(doc, Open(tag), Sub(start) + " ");
    var t1 := SubAtStart(t0, Close(tag), Sub(end) + " ");
    var t2 := SubAtStart(t1, Open(up), Sub(start) + " ");
    SubAtStart(t2, Close(up), Sub(end) + " ")
  }

  /** The four substitutions of every remaining occurrence. */
  function InnerSubs(t3: string, tag: string, start: string, end: string): string
  {
    var up := UpperStr(tag);
    var t4 := ReplaceAll(t3, Open(tag), " " + Sub(start) + " ");
    var t5 := ReplaceAll(t4, Close(tag), " " + Sub(end) + " ");
    var t6 := ReplaceAll(t5, Open(up), " " + Sub(start) + " ");
    ReplaceAll(t6, Close(up), " " + Sub(end) + " ")
  }

  /** Text without '<' holds no tag, so every step leaves it as it is. */
  lemma ReplaceHtmlTagsPlain(doc: string, tag: string, start: string, end: string)
    requires '<' !in doc
    ensures ReplaceHtmlTags(doc, tag, start, end) == doc
  {
    var up := UpperStr(tag);
    forall pat | pat in [Open(tag), Close(tag), Open(up), Close(up)]
      ensures !StartsWith(doc, pat) && ReplaceAll(doc, pat, " |x| ") == doc
    {
      AbsentLead(doc, pat, '<');
      if |pat| <= |doc| {
        assert doc[..|pat|][0] == doc[0];
      }
    }
    AbsentLead(doc, Open(tag), '<');
    AbsentLead(doc, Close(tag), '<');
    AbsentLead(doc, Open(up), '<');
    AbsentLead(doc, Close(up), '<');
  }

  /** Plain text with one opening tag in its middle: the tag becomes ` |start| `. */
  lemma {:induction false} ReplaceHtmlTagsInner(x: string, y: string, tag: string, start: string, end: string)
    requires |x| > 0 && '<' !in x && '<' !in y
    requires '<' !in tag && '<' !in start && '<' !in end
    ensures ReplaceHtmlTags(x + Open(tag) + y, tag, start, end) == x + " " + Sub(start) + " " + y
  {
    var doc := x + Open(tag) + y;
    assert doc[0] == x[0] && x[0] in x;
    LeadKept(doc, tag, start, end);
    InnerAround(x, y, tag, start, end);
    Regroup(x, " ", Sub(start), " ", y);
  }

  /** The one opening tag between plain `x` and `y` is the only occurrence the later substitutions find. */
  lemma InnerAround(x: string, y: string, tag: string, start: string, end: string)
    requires '<' !in x && '<' !in y
    requires '<' !in tag && '<' !in start && '<' !in end
    ensures InnerSubs(x + Open(tag) + y, tag, start, end) == x + (" " + Sub(start) + " ") + y
  {
    var up := UpperStr(tag);
    var rep := " " + Sub(start) + " ";
    TagTail(tag);
    ReplaceAllAround(x, y, Open(tag), rep);
    var out := x + rep + y;
    assert '<' !in rep;
    NoLtJoined(x, rep, y);
    NoLtKept(out, Close(tag), " " + Sub(end) + " ");
    NoLtKept(out, Open(up), rep);
    NoLtKept(out, Close(up), " " + Sub(end) + " ");
  }

  /** After its '<', an opening tag holds no other '<'. */
  lemma TagTail(tag: string)
    requires '<' !in tag
    ensures |Open(tag)| > 0 && Open(tag)[0] == '<' && '<' !in Open(tag)[1..]
  {
    assert Open(tag)[1..] == tag + ">";
  }

  /** Concatenation regrouped. */
  lemma Regroup<T>(x: seq<T>, a: seq<T>, b: seq<T>, c: seq<T>, y: seq<T>)
    ensures x + (a + b + c) + y == x + a + b + c + y
  {
  }

  /** Text that does not open with '<' passes the four substitutions at the start unchanged. */
  lemma LeadKept(doc: string, tag: string, start: string, end: string)
    requires |doc| > 0 && doc[0] != '<'
    ensures LeadSubs(doc, tag, start, end) == doc
  {
    var up := UpperStr(tag);
    assert !StartsWith(doc, Open(tag)) && !StartsWith(doc, Close(tag));
    assert !StartsWith(doc, Open(up)) && !StartsWith(doc, Close(up));
  }

  /** Text without '<' holds no occurrence of a pattern that opens with '<'. */
  lemma NoLtKept(s: string, pat: string, rep: string)
    requires '<' !in s && |pat| > 0 && pat[0] == '<'
    ensures ReplaceAll(s, pat, rep) == s
  {
    AbsentLead(s, pat, '<');
  }

  /** Three pieces without '<' make a text without '<'. */
  lemma NoLtJoined(x: string, m: string, y: string)
    requires '<' !in x && '<' !in m && '<' !in y
    ensures '<' !in x + m + y
  {
    var out := x + m + y;
    forall i | 0 <= i < |out| ensures out[i] != '<' {
      if i < |x| { assert out[i] == x[i]; }
      else if i < |x| + |m| { assert out[i] == m[i - |x|]; }
      else { assert out[i] == y[i - |x| - |m|]; }
    }
  }

  /** Plain text opened by a tag: the tag becomes `|start| ` with no leading space. */
  lemma ReplaceHtmlTagsLeading(y: string, tag: string, start: string, end: string)
    requires '<' !in y && '<' !in start && '<' !in end
    ensures ReplaceHtmlTags(Open(tag) + y, tag, start, end) == Sub(start) + " " + y
  {
    var up := UpperStr(tag);
    var doc := Open(tag) + y;
    assert StartsWith(doc, Open(tag));
    assert doc[|Open(tag)|..] == y;
    var t0 := Sub(start) + " " + y;
    assert '<' !in t0 by {
      forall i | 0 <= i < |t0| ensures t0[i] != '<' {
        if i < |Sub(start) + " "| { assert t0[i] == (Sub(start) + " ")[i]; }
        else { assert t0[i] == y[i - |Sub(start) + " "|]; }
      }
    }
    ReplaceHtmlTagsTail(t0, tag, start, end);
  }

  /** Once the leading tag is gone, no '<' remains for the later steps. */
  lemma ReplaceHtmlTagsTail(t0: string, tag: string, start: string, end: string)
    requires '<' !in t0
    ensures var up := UpperStr(tag);
            var t1 := SubAtStart(t0, Close(tag), Sub(end) + " ");
            var t2 := SubAtStart(t1, Open(up), Sub(start) + " ");
            var t3 := SubAtStart(t2, Close(up), Sub(end) + " ");
            var t4 := ReplaceAll(t3, Open(tag), " " + Sub(start) + " ");
            var t5 := ReplaceAll(t4, Close(tag), " " + Sub(end) + " ");
            var t6 := ReplaceAll(t5, Open(up), " " + Sub(start) + " ");
            ReplaceAll(t6, Close(up), " " + Sub(end) + " ") == t0
  {
    var up := UpperStr(tag);
    if |t0| > 0 {
      assert t0[0] in t0;
    }
    assert !StartsWith(t0, Close(tag)) && !StartsWith(t0, Open(up)) && !StartsWith(t0, Close(up));
    AbsentLead(t0, Open(tag), '<');
    AbsentLead(t0, Close(tag), '<');
    AbsentLead(t0, Open(up), '<');
    AbsentLead(t0, Close(up), '<');
  }

  /** `x + pat + y` with `pat` the only '<' in sight: exactly that occurrence is replaced. */
  lemma ReplaceAllAround(x: string, y: string, pat: string, rep: string)
    requires |pat| > 0 && pat[0] == '<' && '<' !in pat[1..]
    requires '<' !in x && '<' !in y
    ensures ReplaceAll(x + pat + y, pat, rep) == x + rep + y
  {
    var s := x + pat + y;
    forall i | 0 <= i < |x| ensures !OccursAt(s, pat, i) {
      assert s[i] == x[i];
      if i + |pat| <= |s| {
        assert s[i..i + |pat|][0] == s[i];
      }
    }
    assert s == x + (pat + y);
    ReplaceAllSkip(x, pat + y, pat, rep);
    ReplaceAllLead(y, pat, rep);
    AbsentLead(y, pat, '<');
  }

  // ---------------------------------------------------------------------
  // formatSphinxDoc

  /** `re.sub('^\n', '', doc)`. */
  function DropLeadingNewline(s: string): (r: string)
    ensures |s| > 0 && s[0] == '\n' ==> r == s[1..]
    ensures (|s| == 0 || s[0] != '\n') ==> r == s
  {
    if |s| > 0 && s[0] == '\n' then s[1..] else s
  }

  /**
   `re.sub('\n$', '', doc)`: `$` matches at the end and just before a final
   newline, so a doubled final newline loses both characters.
   */
  function DropTrailingNewline(s: string): (r: string)
    ensures |s| >= 2 && s[|s| - 2..] == "\n\n" ==> r == s[..|s| - 2]
    ensures |s| >= 1 && s[|s| - 1] == '\n' && !(|s| >= 2 && s[|s| - 2] == '\n') ==> r == s[..|s| - 1]
    ensures (|s| == 0 || s[|s| - 1] != '\n') ==> r == s
  {
    if |s| >= 2 && s[|s| - 1] == '\n' && s[|s| - 2] == '\n' then s[..|s| - 2]
    else if |s| >= 1 && s[|s| - 1] == '\n' then s[..|s| - 1]
    else s
  }

  /** The tags `formatSphinxDoc` rewrites, in its order, each with its start and end replacements. */
  const SphinxTags: seq<(string, string, string)> := [
    ("br", "br", "br"), ("br/", "br", "br"), ("b", "bstart", "bend"), ("i", "istart", "iend"),
    ("li", "listart", "liend"), ("ul", "ulstart", "ulend"), ("p", "pstart", "pend")
  ]

  /** `replaceHtmlTags` applied for each tag of `tags` in turn. */
  function ReplaceTagsInOrder(doc: string, tags: seq<(string, string, string)>): string
    decreases |tags|
  {
    if |tags| == 0 then doc
    else ReplaceTagsInOrder(ReplaceHtmlTags(doc, tags[0].0, tags[0].1, tags[0].2), tags[1..])
  }

  function FormatSphinxDoc(doc: string): string
  {
    ReplaceTagsInOrder(DropTrailingNewline(DropLeadingNewline(doc)), SphinxTags)
  }

  /** Text with no tag and no surrounding newline is already valid reST. */
  lemma FormatSphinxDocPlain(doc: string)
    requires '<' !in doc
    requires |doc| == 0 || (doc[0] != '\n' && doc[|doc| - 1] != '\n')
    ensures FormatSphinxDoc(doc) == doc
  {
    assert DropTrailingNewline(DropLeadingNewline(doc)) == doc;
    ReplaceTagsPlain(doc, SphinxTags);
  }

  /** Text with no tag comes through any list of tag rewrites unchanged. */
  lemma {:induction false} ReplaceTagsPlain(doc: string, tags: seq<(string, string, string)>)
    requires '<' !in doc
    ensures ReplaceTagsInOrder(doc, tags) == doc
    decreases |tags|
  {
    if |tags| > 0 {
      ReplaceHtmlTagsPlain(doc, tags[0].0, tags[0].1, tags[0].2);
      ReplaceTagsPlain(doc, tags[1..]);
    }
  }

  // ---------------------------------------------------------------------
  // Type labels to Python cross-references

  const ClassNames: set<string> := {
    "BooleanProperty", "ColorProperty", "DoubleProperty", "IntegerProperty",
    "LayoutProperty", "SizeProperty", "StringProperty", "NumericProperty",
    "PropertyInterface", "StringCollection", "ColorScale", "Color"
  }

  /** `getTalipotPythonType`. */
  function PythonType(t: string): (r: string)
    ensures t in ClassNames ==> r == ":class:`tlp." + t + "`"
    ensures t !in ClassNames && t == "Boolean" ==> r == ":const:`bool`"
    ensures t !in ClassNames && t != "Boolean" && StartsWith(t, "float") ==> r == ":const:`float`"
    ensures (t !in ClassNames && t != "Boolean" && !StartsWith(t, "float") && Contains(t, "integer"))
            ==> r == ":const:`int`"
    ensures (t !in ClassNames && t != "Boolean" && !StartsWith(t, "float") && !Contains(t, "integer")
             && t == "string") ==> r == ":const:`str`"
    ensures (t !in ClassNames && t != "Boolean" && !StartsWith(t, "float") && !Contains(t, "integer")
             && t != "string") ==> r == t
  {
    if t in ClassNames then ":class:`tlp." + t + "`"
    else if t == "Boolean" then ":const:`bool`"
    else if StartsWith(t, "float") then ":const:`float`"
    else if Find(t, "integer") >= 0 then ":const:`int`"
    else if t == "string" then ":const:`str`"
    else t
  }

  // ---------------------------------------------------------------------
  // Reading fields back from the HTML help

  /** The help text: between the first `<p class="help">` and the last `</p>`. */
  function HelpOf(html: string): (r: string)
    ensures Find(html, HelpTag) == -1 ==> r == ""
  {
    var pos := Find(html, HelpTag);
    if pos == -1 then ""
    else FormatSphinxDoc(PySlice(html, pos + |HelpTag|, RFind(html, "</p>")))
  }

  /** The raw content of the cell that follows `tag`, up to the next `</td>`. */
  function CellAfter(html: string, tag: string): (r: string)
    ensures Find(html, tag) == -1 ==> r == ""
  {
    var pos := Find(html, tag);
    if pos == -1 then ""
    else PySlice(html, pos + |tag|, FindFrom(html, CellEnd, pos))
  }

  function TypeOf(html: string): string
  {
    ReplaceAll(CellAfter(html, TypeTag), DoublePrecision, "")
  }

  function ValuesOf(html: string): string
  {
    if Find(html, ValuesTag) == -1 then "" else FormatSphinxDoc(CellAfter(html, ValuesTag))
  }

  /** The type row of a generated help: the label is read back whole when it holds no `</td>`. */
  lemma CellAfterTypeRow(pre: string, b: string, rest: string)
    requires !Contains(pre + "<tr><td>" + TypeTag[..|TypeTag| - 1], TypeTag)
    requires !Contains(b, CellEnd)
    ensures CellAfter(pre + WithParameter.HelpDef("type", b) + rest, TypeTag) == b
  {
    var a := pre + "<tr><td>";
    var tail := "</tr>" + rest;
    var html := pre + WithParameter.HelpDef("type", b) + rest;
    HelpDefShape(pre, b, rest);
    TypeTagFirst(a, b + CellEnd + tail);
    Reassociate(a + TypeTag, b, CellEnd, tail);
    CellEndAfterLabel(a, b, tail);
    CellAfterAt(html, TypeTag, |a|, |a + TypeTag| + |b|);
    MiddleSlice(a + TypeTag, b, CellEnd + tail);
  }

  /** The groupings of `x + b + c + w` the proofs above need. */
  lemma Reassociate<T>(x: seq<T>, b: seq<T>, c: seq<T>, w: seq<T>)
    ensures x + (b + c + w) == x + b + c + w
    ensures x + (b + c + w) == x + b + (c + w)
  {
  }

  /** The cell after the first `tag`, found at `p`, runs to the `</td>` found at `q`. */
  lemma CellAfterAt(html: string, tag: string, p: int, q: int)
    requires p >= 0 && Find(html, tag) == p && FindFrom(html, CellEnd, p) == q
    ensures CellAfter(html, tag) == PySlice(html, p + |tag|, q)
  {
  }

  /** The slice between `x` and `y` of `x + b + y` is `b`. */
  lemma MiddleSlice(x: string, b: string, y: string)
    ensures PySlice(x + b + y, |x|, |x| + |b|) == b
  {
    assert (x + b + y)[|x|..|x| + |b|] == b;
  }

  lemma HelpDefShape(pre: string, b: string, rest: string)
    ensures pre + WithParameter.HelpDef("type", b) + rest
            == (pre + "<tr><td>") + TypeTag + (b + CellEnd + ("</tr>" + rest))
  {
  }

  /** In a generated help the first type tag is the one of the type row. */
  lemma TypeTagFirst(a: string, v: string)
    requires !Contains(a + TypeTag[..|TypeTag| - 1], TypeTag)
    ensures Find(a + TypeTag + v, TypeTag) == |a|
  {
    var html := a + TypeTag + v;
    var p := |a|;
    assert OccursAt(html, TypeTag, p) by {
      assert html[p..p + |TypeTag|] == TypeTag;
    }
    var u := a + TypeTag[..|TypeTag| - 1];
    assert html == u + ([TypeTag[|TypeTag| - 1]] + v);
    NoOccurrenceInPrefix(u, [TypeTag[|TypeTag| - 1]] + v, TypeTag, p);
    FindFromAt(html, TypeTag, 0, p);
  }

  /** After the type tag, the first `</td>` is the one that closes the label. */
  lemma CellEndAfterLabel(a: string, b: string, tail: string)
    requires !Contains(b, CellEnd)
    ensures FindFrom(a + TypeTag + b + CellEnd + tail, CellEnd, |a|) == |a| + |TypeTag| + |b|
  {
    var html := a + TypeTag + b + CellEnd + tail;
    var p := |a|;
    var q := p + |TypeTag| + |b|;
    assert OccursAt(html, TypeTag, p) by {
      assert html[p..p + |TypeTag|] == TypeTag;
    }
    assert OccursAt(html, CellEnd, q) by {
      assert html[q..q + |CellEnd|] == CellEnd;
    }
    CellEndNotInTag(html, p);
    assert html == (a + TypeTag) + (b + CellEnd) + tail;
    CellEndNotInLabel(a + TypeTag, b, tail);
    FindFromAt(html, CellEnd, p, q);
  }

  /** An occurrence that ends inside `u` is an occurrence in `u`. */
  lemma NoOccurrenceInPrefix(u: string, v: string, pat: string, n: int)
    requires n + |pat| - 1 <= |u|
    requires !Contains(u, pat)
    ensures forall i :: 0 <= i < n ==> !OccursAt(u + v, pat, i)
  {
    forall i | 0 <= i < n ensures !OccursAt(u + v, pat, i) {
      assert !OccursAt(u, pat, i);
      if i + |pat| <= |u| {
        assert (u + v)[i..i + |pat|] == u[i..i + |pat|];
      }
    }
  }

  /** The type tag holds no `</t`. */
  lemma TypeTagNoCellStart(k: int)
    requires 0 <= k && k + 3 <= |TypeTag|
    ensures !(TypeTag[k] == '<' && TypeTag[k + 1] == '/' && TypeTag[k + 2] == 't')
  {
  }

  /** `</td>` does not start inside the type tag. */
  lemma CellEndNotInTag(html: string, p: int)
    requires OccursAt(html, TypeTag, p)
    ensures forall i :: p <= i < p + |TypeTag| ==> !OccursAt(html, CellEnd, i)
  {
    forall i | p <= i < p + |TypeTag| ensures !OccursAt(html, CellEnd, i) {
      NoCellEndAt(html, p, i - p);
    }
  }

  /** `</td>` does not start at the `k`-th letter of an occurrence of the type tag. */
  lemma NoCellEndAt(html: string, p: int, k: int)
    requires OccursAt(html, TypeTag, p) && 0 <= k < |TypeTag|
    ensures !OccursAt(html, CellEnd, p + k)
  {
    TagLetter(html, p, k);
    if k + 3 <= |TypeTag| {
      TagLetter(html, p, k + 1);
      TagLetter(html, p, k + 2);
      TypeTagNoCellStart(k);
    } else {
      assert TypeTag[|TypeTag| - 2] == '"' && TypeTag[|TypeTag| - 1] == '>';
    }
    if p + k + 5 <= |html| {
      CellEndLetters(html, p + k);
    }
  }

  /** Where the type tag occurs, the text holds its letters. */
  lemma TagLetter(html: string, p: int, k: int)
    requires OccursAt(html, TypeTag, p) && 0 <= k < |TypeTag|
    ensures html[p + k] == TypeTag[k]
  {
    assert html[p..p + |TypeTag|][k] == html[p + k];
  }

  /** `</td>` occurs at `i` only where the text holds `<`, `/` and `t`. */
  lemma CellEndLetters(html: string, i: int)
    requires 0 <= i && i + 5 <= |html|
    ensures OccursAt(html, CellEnd, i) ==> html[i] == '<' && html[i + 1] == '/' && html[i + 2] == 't'
  {
    var c := html[i..i + 5];
    assert c[0] == html[i] && c[1] == html[i + 1] && c[2] == html[i + 2];
  }

  /** `</td>` does not start inside a label free of it, nor straddle its end. */
  lemma CellEndNotInLabel(x: string, b: string, tail: string)
    requires !Contains(b, CellEnd)
    ensures forall i :: |x| <= i < |x| + |b| ==> !OccursAt(x + (b + CellEnd) + tail, CellEnd, i)
  {
    var w := b + CellEnd;
    var html := x + w + tail;
    assert |w| == |b| + 5;
    forall i | |x| <= i < |x| + |b| ensures !OccursAt(html, CellEnd, i) {
      var k := i - |x|;
      assert html[i..i + 5] == w[k..k + 5];
      if k + 5 <= |b| {
        assert w[k..k + 5] == b[k..k + 5];
        assert !OccursAt(b, CellEnd, k);
      } else {
        var j := |b| - k;
        assert w[k..k + 5][j] == '<';
        assert CellEnd[j] != '<' by {
          assert j == 1 || j == 2 || j == 3 || j == 4;
        }
      }
    }
  }

  /**
   Round trip of the type row: the generator reads back exactly the type
   label the C++ side wrote, without the ` (double precision)` suffix.
   */
  lemma TypeRoundTrip(frame: WithParameter.HtmlFrame, name: string, help: string, t: WithParameter.TypeId,
                      defaultValue: string, values: string, d: WithParameter.Direction)
    requires t.Named? ==> |t.demangled| > 0
    requires !StartsWith(help, frame.open)
    requires !Contains(frame.open + "<tr><td>" + TypeTag[..|TypeTag| - 1], TypeTag)
    requires !Contains(WithParameter.ParameterTypename(name, t), CellEnd)
    ensures TypeOf(WithParameter.GenerateDoc(frame, name, help, t, defaultValue, values, d))
            == ReplaceAll(WithParameter.ParameterTypename(name, t), DoublePrecision, "")
  {
    var html := WithParameter.GenerateDoc(frame, name, help, t, defaultValue, values, d);
    var head := frame.open + WithParameter.HelpDef("type", WithParameter.ParameterTypename(name, t));
    WithParameter.GenerateDocTypeRowFirst(frame, name, help, t, defaultValue, values, d);
    assert html == head + html[|head|..];
    CellAfterTypeRow(frame.open, WithParameter.ParameterTypename(name, t), html[|head|..]);
  }

  /** The Python type a built-in C++ type is documented with. */
  function BuiltinPythonType(t: WithParameter.TypeId): string
  {
    match t
    case BoolT => ":const:`bool`"
    case IntT => ":const:`int`"
    case UIntT => ":const:`int`"
    case FloatT => ":const:`float`"
    case DoubleT => ":const:`float`"
    case StringT => ":const:`str`"
    case Named(n) => n
  }

  /** The built-in type labels land on Python's own types in the table. */
  lemma BuiltinTypeLabel(t: WithParameter.TypeId)
    requires !t.Named?
    ensures PythonType(MapChar(ReplaceAll(WithParameter.TypeLabel(t), DoublePrecision, ""), ' ', Nbsp))
            == BuiltinPythonType(t)
  {
    match t
    case BoolT => BoolLabel();
    case IntT => IntegerLabel();
    case UIntT => UnsignedIntegerLabel();
    case FloatT => FloatLabel();
    case DoubleT => DoubleLabel();
    case StringT => StringLabel();
  }

  /** A label without '(' loses nothing to the suffix removal. */
  lemma NoSuffixIn(text: string)
    requires '(' !in text
    ensures ReplaceAll(text, DoublePrecision, "") == text
  {
    assert DoublePrecision[1] == '(';
    AbsentChar(text, DoublePrecision, '(');
  }

  /** The ` (double precision)` suffix is removed from a label free of '('. */
  lemma SuffixDropped(text: string)
    requires '(' !in text
    ensures ReplaceAll(text + DoublePrecision, DoublePrecision, "") == text
  {
    var s := text + DoublePrecision;
    forall i | 0 <= i < |text| ensures !OccursAt(s, DoublePrecision, i) {
      if i + |DoublePrecision| <= |s| {
        assert s[i..i + |DoublePrecision|][1] == s[i + 1];
        if i + 1 < |text| {
          assert s[i + 1] == text[i + 1];
          assert text[i + 1] in text;
        } else {
          assert s[i + 1] == ' ';
        }
      }
    }
    ReplaceAllSkip(text, DoublePrecision, DoublePrecision, "");
    assert DoublePrecision == DoublePrecision + "";
    ReplaceAllLead("", DoublePrecision, "");
  }

  lemma IntegerLabel()
    ensures PythonType(MapChar(ReplaceAll("integer", DoublePrecision, ""), ' ', Nbsp)) == ":const:`int`"
  {
    NoSuffixIn("integer");
    MapCharAbsent("integer", ' ', Nbsp);
    assert OccursAt("integer", "integer", 0);
    assert "integer"[0] == 'i' && "integer"[..5][0] == 'i';
  }

  lemma UnsignedIntegerLabel()
    ensures PythonType(MapChar(ReplaceAll("unsigned integer", DoublePrecision, ""), ' ', Nbsp)) == ":const:`int`"
  {
    NoSuffixIn("unsigned integer");
    var t := MapChar("unsigned integer", ' ', Nbsp);
    assert t[9..16] == "integer";
    assert OccursAt(t, "integer", 9);
    assert t[0] == 'u';
    assert t[..5][0] == 'u';
  }

  lemma FloatingLabel(text: string)
    requires '(' !in text && |text| >= 5 && text[..5] == "float"
    requires |text| != 5 && |text| != 7
    ensures PythonType(MapChar(text, ' ', Nbsp)) == ":const:`float`"
  {
    var t := MapChar(text, ' ', Nbsp);
    assert t[..5] == "float";
    assert t !in ClassNames && t != "Boolean" by {
      assert |t| == |text|;
      assert t[0] == 'f';
    }
  }

  lemma FloatLabel()
    ensures PythonType(MapChar(ReplaceAll("floating point number", DoublePrecision, ""), ' ', Nbsp)) == ":const:`float`"
  {
    NoSuffixIn("floating point number");
    FloatingLabel("floating point number");
  }

  lemma DoubleLabel()
    ensures PythonType(MapChar(ReplaceAll(WithParameter.DoubleType, DoublePrecision, ""), ' ', Nbsp)) == ":const:`float`"
  {
    assert WithParameter.DoubleType == "floating point number" + DoublePrecision;
    SuffixDropped("floating point number");
    FloatingLabel("floating point number");
  }

  lemma BoolLabel()
    ensures PythonType(MapChar(ReplaceAll("Boolean", DoublePrecision, ""), ' ', Nbsp)) == ":const:`bool`"
  {
    NoSuffixIn("Boolean");
    MapCharAbsent("Boolean", ' ', Nbsp);
  }

  lemma StringLabel()
    ensures PythonType(MapChar(ReplaceAll("string", DoublePrecision, ""), ' ', Nbsp)) == ":const:`str`"
  {
    NoSuffixIn("string");
    MapCharAbsent("string", ' ', Nbsp);
    assert !StartsWith("string", "float") by {
      assert "string"[..5][0] == 's';
    }
    assert !Contains("string", "integer");
  }

  // ---------------------------------------------------------------------
  // The parameter table

  /** What the generator reads from one declared parameter. */
  datatype PluginParam = PluginParam(
    name: string, helpHtml: string, direction: WithParameter.Direction, defaultValue: string)

  datatype Row = Row(name: string, typeRef: string, defaultValue: string, direction: string, help: string)

  const ValuesIntro: string := " |br| |br| |bstart| Values: |bend| |br| "

  /** An output parameter named `result` holding a property is the algorithm's result, not a parameter. */
  predicate Skipped(p: PluginParam)
  {
    p.name == "result" && Find(TypeOf(p.helpHtml), "Property") >= 0
  }

  function DirectionText(d: WithParameter.Direction): string
  {
    match d
    case In => "input"
    case Out => "output"
    case InOut => "input / output"
  }

  /** `true`/`false` literals become Python constants. */
  function PythonBooleans(d: string): string
  {
    ReplaceAll(ReplaceAll(d, "false", ":const:`False`"), "true", ":const:`True`")
  }

  /**
   The default column as the script writes it: a `StringCollection` default
   is sliced with `[0:d.find(';')]`, which for a default without ';' is
   `[0:-1]` and drops the last character.
   */
  function DefaultAsWritten(typeName: string, d: string, values: string): string
  {
    var base := if typeName == "StringCollection" then PySlice(d, 0, Find(d, ";")) else PythonBooleans(d);
    if |values| > 0 then base + ValuesIntro + values else base
  }

  /** The slice keeps the first option only when there is a second one. */
  lemma DefaultAsWrittenDropsLast(d: string)
    requires |d| > 0 && ';' !in d
    ensures DefaultAsWritten("StringCollection", d, "") == d[..|d| - 1]
  {
    assert !Contains(d, ";") by {
      AbsentChar(d, ";", ';');
    }
  }

  /** A one-option collection `Linear` is documented with the default `Linea`. */
  lemma DefaultAsWrittenExample()
    ensures DefaultAsWritten("StringCollection", "Linear", "") == "Linea"
  {
    DefaultAsWrittenDropsLast("Linear");
  }

  /**
   The default column: the first option of a `StringCollection` (the whole
   text when it has a single option, as the C++ help shows it), Python
   boolean constants otherwise, then the possible values.
   */
  function DefaultText(typeName: string, d: string, values: string): (r: string)
    ensures typeName == "StringCollection" && |values| == 0 ==>
              StartsWith(d, r) && ';' !in r && (';' in d ==> d[|r|] == ';') && (';' !in d ==> r == d)
    ensures |values| > 0 ==> exists base :: r == base + ValuesIntro + values
  {
    var base := if typeName == "StringCollection" then WithParameter.CutAtSemicolon(d) else PythonBooleans(d);
    if |values| > 0 then base + ValuesIntro + values else base
  }

  /** Where the collection has several options both versions agree. */
  lemma DefaultTextAgrees(typeName: string, d: string, values: string)
    requires typeName == "StringCollection" ==> ';' in d
    ensures DefaultText(typeName, d, values) == DefaultAsWritten(typeName, d, values)
  {
    if typeName == "StringCollection" {
      var c := WithParameter.CutAtSemicolon(d);
      assert OccursAt(d, ";", |c|) by {
        assert d[|c|..|c| + 1] == [d[|c|]];
      }
      forall i | 0 <= i < |c| ensures !OccursAt(d, ";", i) {
        assert d[i] == d[..|c|][i] == c[i];
        assert c[i] in c;
        assert d[i..i + 1] == [d[i]];
      }
      FindFromAt(d, ";", 0, |c|);
      assert d[..|c|] == c;
    }
  }

  /** A name loses its path prefixes and keeps its words together. */
  function CleanName(n: string): string
  {
    MapChar(ReplaceAll(ReplaceAll(n, "file::", ""), "dir::", ""), ' ', Nbsp)
  }

  /** The row the script writes for a parameter, its default column sliced as written. */
  function RowOf(p: PluginParam): Row
  {
    var typeName := TypeOf(p.helpHtml);
    Row(CleanName(p.name),
        PythonType(MapChar(typeName, ' ', Nbsp)),
        DefaultAsWritten(typeName, p.defaultValue, ValuesOf(p.helpHtml)),
        MapChar(DirectionText(p.direction), ' ', Nbsp),
        HelpOf(p.helpHtml))
  }

  /** The row with the default column the first option of a collection, whole when there is one option. */
  function CorrectedRowOf(p: PluginParam): Row
  {
    RowOf(p).(defaultValue := DefaultText(TypeOf(p.helpHtml), p.defaultValue, ValuesOf(p.helpHtml)))
  }

  /**
   The two rows differ in the default column only, and only for a
   non-empty `StringCollection` default without ';', where they always do.
   */
  lemma CorrectedRowDiffers(p: PluginParam)
    ensures CorrectedRowOf(p).(defaultValue := RowOf(p).defaultValue) == RowOf(p)
    ensures CorrectedRowOf(p) != RowOf(p) <==>
              TypeOf(p.helpHtml) == "StringCollection" && ';' !in p.defaultValue && |p.defaultValue| > 0
  {
    var typeName, d, values := TypeOf(p.helpHtml), p.defaultValue, ValuesOf(p.helpHtml);
    var r := RowOf(p);
    assert r.defaultValue == DefaultAsWritten(typeName, d, values);
    assert CorrectedRowOf(p) == r.(defaultValue := DefaultText(typeName, d, values));
    DefaultsDiffer(typeName, d, values);
  }

  /** The corrected default column differs from the sliced one exactly for a non-empty collection default without ';'. */
  lemma DefaultsDiffer(typeName: string, d: string, values: string)
    ensures DefaultText(typeName, d, values) != DefaultAsWritten(typeName, d, values) <==>
              typeName == "StringCollection" && ';' !in d && |d| > 0
  {
    if typeName == "StringCollection" && ';' !in d {
      assert !Contains(d, ";") by {
        if |d| > 0 {
          AbsentChar(d, ";", ';');
        }
      }
      var fixed := WithParameter.CutAtSemicolon(d);
      var sliced := PySlice(d, 0, Find(d, ";"));
      assert fixed == d;
      if |d| > 0 {
        assert |sliced| == |d| - 1;
        assert |DefaultText(typeName, d, values)| != |DefaultAsWritten(typeName, d, values)|;
      } else {
        assert sliced == d;
      }
    } else {
      DefaultTextAgrees(typeName, d, values);
    }
  }

  /** The parameters that get a row under the rule `skip`, in declaration order. */
  function Kept(ps: seq<PluginParam>, skip: PluginParam -> bool): (r: seq<PluginParam>)
    ensures |r| <= |ps|
  {
    if |ps| == 0 then []
    else if skip(ps[0]) then Kept(ps[1..], skip)
    else [ps[0]] + Kept(ps[1..], skip)
  }

  /** How many kept parameters the caller may set. */
  function InputCount(ps: seq<PluginParam>, skip: PluginParam -> bool): (r: nat)
    ensures r <= |Kept(ps, skip)|
  {
    if |ps| == 0 then 0
    else InputCount(ps[1..], skip) + (if !skip(ps[0]) && ps[0].direction != WithParameter.Out then 1 else 0)
  }

  lemma {:induction false} KeptSnoc(ps: seq<PluginParam>, p: PluginParam, skip: PluginParam -> bool)
    ensures Kept(ps + [p], skip) == Kept(ps, skip) + (if skip(p) then [] else [p])
    ensures InputCount(ps + [p], skip)
            == InputCount(ps, skip) + (if !skip(p) && p.direction != WithParameter.Out then 1 else 0)
    decreases |ps|
  {
    if |ps| == 0 {
      assert ps + [p] == [p];
      assert [p][1..] == [];
    } else {
      assert (ps + [p])[0] == ps[0];
      assert (ps + [p])[1..] == ps[1..] + [p];
      KeptSnoc(ps[1..], p, skip);
    }
  }

  /**
   The table is built parameter by parameter: every kept parameter yields
   exactly one row, in order, and the input counter counts the kept
   parameters that are not pure outputs.
   */
  method BuildTable(ps: seq<PluginParam>) returns (table: seq<Row>, nbIn: nat)
    ensures |table| == |Kept(ps, Skipped)|
    ensures forall i :: 0 <= i < |table| ==> table[i] == RowOf(Kept(ps, Skipped)[i])
    ensures nbIn == InputCount(ps, Skipped)
  {
    table, nbIn := BuildTableBy(ps, Skipped, RowOf);
  }

  /** The table with the corrected default column. */
  method BuildCorrectedTable(ps: seq<PluginParam>) returns (table: seq<Row>, nbIn: nat)
    ensures |table| == |Kept(ps, Skipped)|
    ensures forall i :: 0 <= i < |table| ==> table[i] == CorrectedRowOf(Kept(ps, Skipped)[i])
    ensures nbIn == InputCount(ps, Skipped)
  {
    table, nbIn := BuildTableBy(ps, Skipped, CorrectedRowOf);
  }

  /** The loop of the table builder, for a given skip rule and row layout. */
  method BuildTableBy(ps: seq<PluginParam>, skip: PluginParam -> bool, row: PluginParam -> Row)
    returns (table: seq<Row>, nbIn: nat)
    ensures |table| == |Kept(ps, skip)|
    ensures forall i :: 0 <= i < |table| ==> table[i] == row(Kept(ps, skip)[i])
    ensures nbIn == InputCount(ps, skip)
  {
    table := [];
    nbIn := 0;
    var k := 0;
    while k < |ps|
      invariant 0 <= k <= |ps|
      invariant |table| == |Kept(ps[..k], skip)|
      invariant forall i :: 0 <= i < |table| ==> table[i] == row(Kept(ps[..k], skip)[i])
      invariant nbIn == InputCount(ps[..k], skip)
    {
      var p := ps[k];
      KeptSnoc(ps[..k], p, skip);
      assert ps[..k + 1] == ps[..k] + [p];
      if !skip(p) {
        table := table + [row(p)];
        if p.direction != WithParameter.Out {
          nbIn := nbIn + 1;
        }
      }
      k := k + 1;
    }
    assert ps[..k] == ps;
  }

  // ---------------------------------------------------------------------
  // The calling snippet

  const SkippedCategories: set<string> := {"Panel", "Node shape", "Edge extremity", "Interactor"}

  /** Plugins of these categories get no documentation section. */
  predicate Documented(category: string)
  {
    category !in SkippedCategories
  }

  function Quoted(name: string): string { "'" + name + "'" }

  /** How a property algorithm's result is fetched and applied. */
  datatype ResultProperty = ResultProperty(
    kind: string, getter: string, variable: string, apply: string, viewKind: string, view: string)

  function ResultPropertyOf(category: string): (r: Option<ResultProperty>)
  {
    if category == "Layout" then Some(ResultProperty("layout", "Layout", "resultLayout", "Layout", "layout", "viewLayout"))
    else if category == "Measure" then Some(ResultProperty("double", "Double", "resultMetric", "Double", "metric", "viewMetric"))
    else if category == "Coloring" then Some(ResultProperty("color", "Color", "resultColor", "Color", "color", "viewColor"))
    else if category == "Resizing" then Some(ResultProperty("size", "Size", "resultSize", "Size", "size", "viewSize"))
    else if category == "Selection" then Some(ResultProperty("boolean", "Boolean", "resultSelection", "Boolean", "boolean", "viewSelection"))
    else if category == "Labeling" then Some(ResultProperty("string", "String", "resultString", "String", "string", "viewLabel"))
    else None
  }

  /** One printed line (or group of lines) of the calling snippet. */
  datatype Line =
    | Intro
    | DefaultsComment
    | GetParams(plugin: string, withGraph: bool)
    | SetInputsComment
    | SetInput(param: string)
    | Blank
    | ImportCall(plugin: string)
    | OutputFile
    | ExportCall(plugin: string)
    | CreateResultComment(rp: ResultProperty)
    | GetResult(rp: ResultProperty)
    | ApplyWithResult(rp: ResultProperty, plugin: string)
    | DefaultResultComment(rp: ResultProperty)
    | ApplyDefault(rp: ResultProperty, plugin: string)
    | ApplyAlgorithm(plugin: string)
    | Closing

  /** The text the script prints for a line. */
  function Render(l: Line): string
  {
    match l
    case Intro => "To call that plugin from Python, use the following code snippet::\n"
    case DefaultsComment => "  # get a dictionary filled with the default plugin parameters values"
    case GetParams(plugin, withGraph) =>
      if withGraph then
        "  # graph is an instance of the tlp.Graph class\n  params = tlp.getDefaultPluginParameters("
        + Quoted(plugin) + ", graph)\n"
      else "  params = tlp.getDefaultPluginParameters(" + Quoted(plugin) + ")\n"
    case SetInputsComment => "  # set any input parameter value if needed"
    case SetInput(param) => "  # params[" + Quoted(param) + "] = ..."
    case Blank => ""
    case ImportCall(plugin) => "  graph = tlp.importGraph(" + Quoted(plugin) + ", params)"
    case OutputFile => "  outputFile = '<path to a file>'"
    case ExportCall(plugin) => "  success = tlp.exportGraph(" + Quoted(plugin) + ", graph, outputFile, params)"
    case CreateResultComment(rp) =>
      "  # either create or get a " + rp.kind + " property from the graph to store the result of the algorithm"
    case GetResult(rp) => "  " + rp.variable + " = graph.get" + rp.getter + "Property(" + Quoted(rp.variable) + ")"
    case ApplyWithResult(rp, plugin) =>
      "  success = graph.apply" + rp.apply + "Algorithm(" + Quoted(plugin) + ", " + rp.variable + ", params)\n"
    case DefaultResultComment(rp) =>
      "  # or store the result of the algorithm in the default Talipot " + rp.viewKind
      + " property named " + Quoted(rp.view)
    case ApplyDefault(rp, plugin) => "  success = graph.apply" + rp.apply + "Algorithm(" + Quoted(plugin) + ", params)\n"
    case ApplyAlgorithm(plugin) => "  success = graph.applyAlgorithm(" + Quoted(plugin) + ", params)\n"
    case Closing =>
      "  # if the plugin declare any output parameter, its value can now be retrieved in the 'params' dictionary\n"
  }

  /** The input block appears unless the only row is the `result` parameter. */
  predicate ListsInputs(table: seq<Row>, nbIn: nat)
  {
    nbIn > 0 && !(|table| == 1 && table[0].name == "result")
  }

  function InputLines(table: seq<Row>, nbIn: nat): (r: seq<Line>)
  {
    if ListsInputs(table, nbIn) then
      [SetInputsComment] + seq(|table|, i requires 0 <= i < |table| => SetInput(table[i].name)) + [Blank]
    else []
  }

  function CallLines(category: string, plugin: string): (r: seq<Line>)
  {
    if category == "Import" then [ImportCall(plugin)]
    else if category == "Export" then [OutputFile, ExportCall(plugin)]
    else match ResultPropertyOf(category)
      case Some(rp) =>
        [CreateResultComment(rp), GetResult(rp), ApplyWithResult(rp, plugin),
         DefaultResultComment(rp), ApplyDefault(rp, plugin)]
      case None => if category == "Algorithm" then [ApplyAlgorithm(plugin)] else []
  }

  /** The lines of the "Calling the plugin from Python" section. */
  function Snippet(category: string, plugin: string, table: seq<Row>, nbIn: nat): seq<Line>
  {
    [Intro, DefaultsComment, GetParams(plugin, category != "Import")]
    + InputLines(table, nbIn) + CallLines(category, plugin) + [Closing]
  }

  /**
   The snippet asks for parameters with a graph except for import plugins;
   it names every row as an input to set exactly when the plugin has inputs
   besides a lone `result`; it ends with the call and the closing remark.
   */
  lemma SnippetShape(category: string, plugin: string, table: seq<Row>, nbIn: nat)
    ensures var s := Snippet(category, plugin, table, nbIn);
            s[2] == GetParams(plugin, category != "Import")
            && (ListsInputs(table, nbIn) <==> SetInputsComment in s)
            && (ListsInputs(table, nbIn) ==>
                  s[3] == SetInputsComment && forall i :: 0 <= i < |table| ==> s[4 + i] == SetInput(table[i].name))
            && s[|s| - 1] == Closing
  {
    var s := Snippet(category, plugin, table, nbIn);
    var inputs := InputLines(table, nbIn);
    var calls := CallLines(category, plugin);
    assert s == [Intro, DefaultsComment, GetParams(plugin, category != "Import")] + inputs + (calls + [Closing]);
    assert SetInputsComment !in calls;
    if ListsInputs(table, nbIn) {
      assert s[3] == inputs[0];
      forall i | 0 <= i < |table| ensures s[4 + i] == SetInput(table[i].name) {
        assert s[4 + i] == inputs[1 + i];
      }
    } else {
      assert s == [Intro, DefaultsComment, GetParams(plugin, category != "Import")] + calls + [Closing];
    }
  }

  /** A property algorithm is shown applied both to a named result property and to the default one. */
  lemma SnippetPropertyCalls(category: string, plugin: string, table: seq<Row>, nbIn: nat)
    requires ResultPropertyOf(category).Some?
    ensures var rp := ResultPropertyOf(category).value;
            ApplyWithResult(rp, plugin) in Snippet(category, plugin, table, nbIn)
            && ApplyDefault(rp, plugin) in Snippet(category, plugin, table, nbIn)
  {
    var calls := CallLines(category, plugin);
    var s := Snippet(category, plugin, table, nbIn);
    var pre := [Intro, DefaultsComment, GetParams(plugin, category != "Import")] + InputLines(table, nbIn);
    assert s == pre + calls + [Closing];
    assert s[|pre| + 2] == calls[2];
    assert s[|pre| + 4] == calls[4];
  }
}
