/**
 The plugin-parameter description list of WithParameter.cpp: the HTML help
 rendered for one parameter, the type label shown in it, parameter lookup by
 name and the "does this plugin need input" test.

 The header, body and closing fragments of the HTML help come from macros
 of WithParameter.h, which is not part of this model; they are carried as
 an `HtmlFrame` value. A C++ `typeid(T).name()` is modelled by `TypeId`.
 */
module WithParameter {
  import opened Wrappers
  import opened Strs

  datatype Direction = In | Out | InOut

  /** The type of a parameter as the C++ runtime names it. */
  datatype TypeId =
    | BoolT | IntT | UIntT | FloatT | DoubleT | StringT
      /** any other type, by its demangled class name (e.g. "StringCollection", "BooleanProperty*") */
    | Named(demangled: string)

  datatype Parameter = Parameter(
    name: string,
    typeId: TypeId,
    help: string,
    defaultValue: string,
    direction: Direction)

  datatype HtmlFrame = HtmlFrame(open: string, body: string, close: string)

  const TypePrefix: string := "<tr><td><b>"
  const FilePathType: string := "file pathname"
  const DirPathType: string := "directory pathname"
  const FloatType: string := "floating point number"
  const DoubleType: string := FloatType + " (double precision)"

  /** One row of the help table: label `a`, content `b`. */
  function HelpDef(a: string, b: string): string
  {
    TypePrefix + a + "</b><td class=\"b\">" + b + "</td></tr>"
  }

  /** The label of a built-in type, or the demangled name without one trailing '*'. */
  function TypeLabel(t: TypeId): (r: string)
    requires t.Named? ==> |t.demangled| > 0
    ensures t.Named? && t.demangled[|t.demangled| - 1] == '*' ==> t.demangled == r + "*"
    ensures t.Named? && t.demangled[|t.demangled| - 1] != '*' ==> r == t.demangled
  {
    match t
    case BoolT => "Boolean"
    case IntT => "integer"
    case UIntT => "unsigned integer"
    case FloatT => FloatType
    case DoubleT => DoubleType
    case StringT => "string"
    case Named(n) => if n[|n| - 1] == '*' then n[..|n| - 1] else n
  }

  /**
   The type shown for a parameter: a path type when the name carries a path
   prefix, whatever its declared type; otherwise the label of the type.
   */
  function ParameterTypename(name: string, t: TypeId): (r: string)
    requires t.Named? ==> |t.demangled| > 0
    ensures StartsWith(name, "file::") || StartsWith(name, "anyfile::") ==> r == FilePathType
    ensures !StartsWith(name, "file::") && !StartsWith(name, "anyfile::") && StartsWith(name, "dir::")
            ==> r == DirPathType
    ensures !StartsWith(name, "file::") && !StartsWith(name, "anyfile::") && !StartsWith(name, "dir::")
            ==> r == TypeLabel(t)
  {
    if StartsWith(name, "file::") || StartsWith(name, "anyfile::") then FilePathType
    else if StartsWith(name, "dir::") then DirPathType
    else TypeLabel(t)
  }

  /** C++ `s.substr(0, s.find(";"))`: everything before the first ';', or all of `s`. */
  function CutAtSemicolon(s: string): (r: string)
    ensures StartsWith(s, r)
    ensures ';' !in r
    ensures ';' !in s ==> r == s
    ensures ';' in s ==> |r| < |s| && s[|r|] == ';'
  {
    if |s| == 0 then s
    else if s[0] == ';' then ""
    else [s[0]] + CutAtSemicolon(s[1..])
  }

  function DirectionLabel(d: Direction): string
  {
    match d
    case In => "input"
    case Out => "output"
    case InOut => "input/output"
  }

  /** The rows after the type row, in the order they are emitted. */
  function OtherRows(t: TypeId, defaultValue: string, values: string, d: Direction): string
  {
    (if values != "" then HelpDef("values", values) else "")
    + (if defaultValue != "" then
         HelpDef("default", if t == Named("StringCollection") then CutAtSemicolon(defaultValue) else defaultValue)
       else "")
    + HelpDef("direction", DirectionLabel(d))
  }

  /**
   The HTML help of one parameter. Help that already starts with the
   header is returned as it is; otherwise the header, the rows, the help
   text (after the body fragment, only when there is help) and the closing
   fragment follow each other.
   */
  function GenerateDoc(frame: HtmlFrame, name: string, help: string, t: TypeId,
                       defaultValue: string, values: string, d: Direction): (r: string)
    requires t.Named? ==> |t.demangled| > 0
    ensures StartsWith(help, frame.open) ==> r == help
  {
    if StartsWith(help, frame.open) then help
    else
      var doc := frame.open + HelpDef("type", ParameterTypename(name, t)) + OtherRows(t, defaultValue, values, d);
      (if help != "" then doc + frame.body + help else doc) + frame.close
  }

  /** Generated help opens with the header and the type row. */
  lemma GenerateDocTypeRowFirst(frame: HtmlFrame, name: string, help: string, t: TypeId,
                                defaultValue: string, values: string, d: Direction)
    requires t.Named? ==> |t.demangled| > 0
    requires !StartsWith(help, frame.open)
    ensures StartsWith(GenerateDoc(frame, name, help, t, defaultValue, values, d),
                       frame.open + HelpDef("type", ParameterTypename(name, t)))
  {
    var head := frame.open + HelpDef("type", ParameterTypename(name, t));
    var doc := head + OtherRows(t, defaultValue, values, d);
    assert StartsWith(doc, head) by {
      assert doc[..|head|] == head;
    }
    if help != "" {
      StartsWithExtended(doc, head, frame.body);
      StartsWithExtended(doc + frame.body, head, help);
      StartsWithExtended(doc + frame.body + help, head, frame.close);
    } else {
      StartsWithExtended(doc, head, frame.close);
    }
  }

  /** The first parameter called `name`, or None (a null pointer). */
  function GetParameter(ps: seq<Parameter>, name: string): (r: Option<nat>)
    ensures r.None? <==> forall i :: 0 <= i < |ps| ==> ps[i].name != name
    ensures r.Some? ==> r.value < |ps| && ps[r.value].name == name
                        && forall i :: 0 <= i < r.value ==> ps[i].name != name
  {
    if |ps| == 0 then None
    else if ps[0].name == name then Some(0)
    else
      match GetParameter(ps[1..], name)
      case None => None
      case Some(i) => Some(i + 1)
  }

  /** The property types whose output parameters still need an input graph property. */
  const InputPropertyTypes: set<string> := {
    "BooleanProperty", "ColorProperty", "DoubleProperty", "IntegerProperty",
    "LayoutProperty", "SizeProperty", "StringProperty", "BooleanVectorProperty",
    "ColorVectorProperty", "DoubleVectorProperty", "IntegerVectorProperty",
    "CoordVectorProperty", "PropertyInterface*"
  }

  predicate NeedsInput(p: Parameter)
  {
    p.direction != Out || (p.typeId.Named? && p.typeId.demangled in InputPropertyTypes)
  }

  /** The parameters are scanned in order and the first one needing input decides. */
  method InputRequired(ps: seq<Parameter>) returns (r: bool)
    ensures r <==> exists i :: 0 <= i < |ps| && NeedsInput(ps[i])
  {
    var k := 0;
    while k < |ps|
      invariant 0 <= k <= |ps|
      invariant forall i :: 0 <= i < k ==> !NeedsInput(ps[i])
    {
      if ps[k].direction != Out {
        return true;
      }
      var t := ps[k].typeId;
      if t.Named? && t.demangled in InputPropertyTypes {
        return true;
      }
      k := k + 1;
    }
    return false;
  }
}
