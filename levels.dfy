/** The level registry: a fixed table of worksheet configurations, looked up
    by the lower-cased `level` parameter, with "yellow" as the fallback. */
module Levels {
  import opened Js

  /** One worksheet configuration. A flag the table leaves out reads as
      `undefined`, which is falsy: here it is `false`. */
  datatype Level = Level(
    name: string,
    tables: seq<int>,   // the times tables a question draws from
    colour: string,
    ceiling: int,       // the largest multiplier
    columns: int,       // question columns in the grid
    questions: int,     // questions on the sheet
    inverses: bool,
    squares: bool,
    fractions: bool)

  /** What the rest of the worksheet needs of a configuration: something to
      draw from, a positive ceiling, and a count that fills whole rows. */
  predicate ValidLevel(l: Level)
  {
    && |l.tables| > 0
    && (forall i :: 0 <= i < |l.tables| ==> l.tables[i] > 0)
    && l.ceiling > 0
    && l.columns > 0
    && l.questions > 0
    && l.questions % l.columns == 0
  }

  const TwoToTwelve: seq<int> := [2, 3, 4, 5, 6, 7, 8, 9, 10, 11, 12]

  const Yellow: Level := Level("Yellow", [2, 3, 4, 5, 10], "yellow", 10, 2, 40, false, false, false)

  const Table: map<string, Level> := map[
    "pink"   := Level("Pink", [2], "pink", 10, 2, 10, false, false, false),
    "red"    := Level("Red", [2, 5], "red", 10, 2, 10, false, false, false),
    "orange" := Level("Orange", [2, 5, 10], "orange", 10, 2, 20, false, false, false),
    "yellow" := Yellow,
    "green"  := Level("Green", [2, 3, 4, 5, 8, 10], "green", 10, 2, 40, false, false, false),
    "blue"   := Level("Blue", TwoToTwelve, "blue", 12, 3, 60, false, false, false),
    "indigo" := Level("Indigo", TwoToTwelve, "indigo", 12, 3, 60, true, false, false),
    "violet" := Level("Violet", TwoToTwelve, "violet", 12, 3, 60, true, false, false),
    "bronze" := Level("Bronze", TwoToTwelve, "#cd7f32", 12, 4, 80, true, false, false),
    "silver" := Level("Silver", TwoToTwelve, "silver", 10, 4, 80, true, true, true)
  ]

  /** Every configured level is valid, and the fallback key is configured. */
  lemma TableValid()
    ensures "yellow" in Table && Table["yellow"] == Yellow
    ensures forall key :: key in Table ==> ValidLevel(Table[key])
  {
    assert ValidLevel(Yellow);
    assert forall i :: 0 <= i < |TwoToTwelve| ==> TwoToTwelve[i] > 0;
  }

  /** Every key of the table is already in lower case. */
  lemma KeysAreLowerCase(key: string)
    requires key in Table
    ensures ToLower(key) == key
  {
    ToLowerIdempotent(key);
  }

  /** `levels[param.toLowerCase()]` read as an own property of the table,
      replaced by `levels["yellow"]` when there is none. A missing parameter
      (`null`) has no `toLowerCase`: the script stops with a TypeError,
      which is `None` here. The code as written also finds inherited
      members; `ResolveAsWritten` below models that. */
  function ResolveLevel(param: Option<string>): (r: Option<Level>)
    ensures r.None? <==> param.None?
    ensures r.Some? ==> ValidLevel(r.value) && r.value in Table.Values
    ensures param.Some? && ToLower(param.value) in Table ==> r == Some(Table[ToLower(param.value)])
    ensures param.Some? && ToLower(param.value) !in Table ==> r == Some(Yellow)
  {
    TableValid();
    match param
    case None => None
    case Some(s) =>
      var key := ToLower(s);
      if key in Table then Some(Table[key]) else Some(Yellow)
  }

  /** Lookup ignores case: a parameter resolves as its lower-case form does,
      and every configured key resolves to its own level. */
  lemma ResolveIgnoresCase(s: string)
    ensures ResolveLevel(Some(s)) == ResolveLevel(Some(ToLower(s)))
    ensures s in Table ==> ResolveLevel(Some(s)) == Some(Table[s])
  {
    ToLowerIdempotent(s);
    if s in Table {
      KeysAreLowerCase(s);
    }
  }

  /** A few lookups worked out: mixed case finds the level; the empty string
      and an unknown name fall back to yellow. */
  lemma ResolveExamples()
    ensures ResolveLevel(Some("PiNk")) == Some(Table["pink"])
    ensures ResolveLevel(Some("")) == Some(Yellow)
    ensures ResolveLevel(Some("purple")) == Some(Yellow)
    ensures ResolveLevel(None) == None
  {
    assert ToLower("PiNk") == "pink";
    assert ToLower("") == "";
    assert ToLower("purple") == "purple";
  }

  // ---------------------------------------------------------------------
  // The lookup as written

  /** Property names that `levels[key]` also finds on `Object.prototype`,
      the prototype of the `levels` object literal. Of its properties only
      these two are spelt in lower case, so only they can be reached
      through `toLowerCase()`. */
  const InheritedKeys: set<string> := {"constructor", "__proto__"}

  /** What the property access `levels[key]` yields: `undefined`, one of
      the configured levels, or an inherited member (the function `Object`
      or `Object.prototype` itself). */
  datatype Property = Undefined | OwnLevel(level: Level) | InheritedMember(name: string)

  function LevelsProperty(key: string): (v: Property)
    ensures v.OwnLevel? <==> key in Table
    ensures v.OwnLevel? ==> v.level == Table[key]
    ensures v.InheritedMember? <==> key in InheritedKeys
    ensures v.Undefined? <==> key !in Table && key !in InheritedKeys
  {
    if key in Table then OwnLevel(Table[key])
    else if key in InheritedKeys then InheritedMember(key)
    else Undefined
  }

  /** script.js:102-106 as written: the property found under the
      lower-cased parameter, replaced by yellow only when it is falsy.
      Inherited members are a function and an object, both truthy, so they
      are kept and the page goes on with something that is not a level. */
  function ResolveAsWritten(param: Option<string>): (r: Option<Property>)
    ensures r.None? <==> param.None?
    ensures r.Some? ==> !r.value.Undefined?
    ensures param.Some? ==> (r.value.InheritedMember? <==> ToLower(param.value) in InheritedKeys)
  {
    match param
    case None => None
    case Some(s) =>
      var v := LevelsProperty(ToLower(s));
      if v.Undefined? then Some(OwnLevel(Yellow)) else Some(v)
  }

  /** Away from the inherited names the lookup as written and the
      own-property lookup `ResolveLevel` agree. */
  lemma AsWrittenAgreesElsewhere(param: Option<string>)
    requires param.Some? ==> ToLower(param.value) !in InheritedKeys
    ensures param.None? ==> ResolveAsWritten(param).None?
    ensures param.Some? ==> ResolveAsWritten(param) == Some(OwnLevel(ResolveLevel(param).value))
  {
  }

  /** `?level=Constructor` and `?level=__proto__` get past the fallback in
      the code as written, while the own-property lookup sends both to
      yellow. */
  lemma InheritedKeyEscapesFallback()
    ensures ResolveAsWritten(Some("Constructor")) == Some(InheritedMember("constructor"))
    ensures ResolveAsWritten(Some("__proto__")) == Some(InheritedMember("__proto__"))
    ensures ResolveLevel(Some("Constructor")) == Some(Yellow)
    ensures ResolveLevel(Some("__proto__")) == Some(Yellow)
  {
    assert ToLower("Constructor") == "constructor";
    assert ToLower("__proto__") == "__proto__";
  }
}
