/** The colour palette and the resolution of a stored colour to one of its
    class strings. */
module Palette {

  /** `COLOR_KEYS`: the palette's names in declaration order. */
  const ColorKeys: seq<string> :=
    ["red", "yellow", "blue", "green", "purple", "pink", "orange", "emerald", "rose", "teal", "fuchsia"]

  /** `COLOR_MAP`: palette name to its display class string. */
  const ColorMap: map<string, string> := map[
    "red" := "text-red-500 drop-shadow-xl drop-shadow-red-500",
    "yellow" := "text-yellow-300 drop-shadow-xl drop-shadow-yellow-300",
    "blue" := "text-sky-400 drop-shadow-xl drop-shadow-sky-400",
    "green" := "text-emerald-400 drop-shadow-xl drop-shadow-emerald-400",
    "purple" := "text-purple-400 drop-shadow-xl drop-shadow-purple-400",
    "pink" := "text-pink-400 drop-shadow-xl drop-shadow-pink-400",
    "orange" := "text-orange-400 drop-shadow-xl drop-shadow-orange-400",
    "emerald" := "text-emerald-400 drop-shadow-xl drop-shadow-emerald-400",
    "rose" := "text-rose-400 drop-shadow-xl drop-shadow-rose-400",
    "teal" := "text-teal-400 drop-shadow-xl drop-shadow-teal-400",
    "fuchsia" := "text-fuchsia-300 drop-shadow-xl drop-shadow-fuchsia-300"
  ]

  /** `COLOR_KEYS` lists each palette name once, and nothing else. */
  lemma ColorKeysArePalette()
    ensures |ColorKeys| == 11
    ensures forall i :: 0 <= i < |ColorKeys| ==> ColorKeys[i] in ColorMap
    ensures forall k :: k in ColorMap ==> k in ColorKeys
    ensures forall i, j :: 0 <= i < j < |ColorKeys| ==> ColorKeys[i] != ColorKeys[j]
  {
  }

  predicate StartsWith(s: string, prefix: string) {
    |prefix| <= |s| && s[..|prefix|] == prefix
  }

  /** `String.prototype.includes`, scanning s from the left. */
  function Includes(s: string, needle: string): bool
    decreases |s|
  {
    StartsWith(s, needle) || (|s| > 0 && Includes(s[1..], needle))
  }

  ghost predicate OccursAt(s: string, needle: string, i: int) {
    0 <= i && i + |needle| <= |s| && s[i..i + |needle|] == needle
  }

  /** Substring occurrence, stated independently of how Includes scans. */
  ghost predicate Occurs(s: string, needle: string) {
    exists i :: OccursAt(s, needle, i)
  }

  lemma {:induction false} IncludesIffOccurs(s: string, needle: string)
    ensures Includes(s, needle) <==> Occurs(s, needle)
    decreases |s|
  {
    if StartsWith(s, needle) {
      assert OccursAt(s, needle, 0);
    } else if |s| > 0 {
      IncludesIffOccurs(s[1..], needle);
      // an occurrence past position 0 of s is one in s[1..], one place earlier
      forall i | 1 <= i && i + |needle| <= |s|
        ensures OccursAt(s, needle, i) <==> OccursAt(s[1..], needle, i - 1)
      {
        assert s[1..][i - 1..i - 1 + |needle|] == s[i..i + |needle|];
      }
      if Includes(s[1..], needle) {
        var i :| OccursAt(s[1..], needle, i);
        assert OccursAt(s, needle, i + 1);
      }
    }
  }

  /** The fallback for a colour that is not a palette name: the first of
      "red", "yellow", "blue" it contains, otherwise green. */
  function Fallback(color: string): (cls: string)
    ensures cls in ColorMap.Values
    ensures cls == ColorMap["red"] <==> Includes(color, "red")
    ensures cls == ColorMap["green"] <==>
              !Includes(color, "red") && !Includes(color, "yellow") && !Includes(color, "blue")
  {
    if Includes(color, "red") then ColorMap["red"]
    else if Includes(color, "yellow") then ColorMap["yellow"]
    else if Includes(color, "blue") then ColorMap["blue"]
    else ColorMap["green"]
  }

  /** The class a stored colour is drawn with: total, always a palette entry;
      a palette name selects its own entry; any other string falls back by
      substring with precedence red, yellow, blue, and otherwise green. */
  function ResolveColor(color: string): (cls: string)
    ensures cls in ColorMap.Values
    ensures color in ColorMap ==> cls == ColorMap[color]
    ensures color !in ColorMap && Occurs(color, "red") ==> cls == ColorMap["red"]
    ensures color !in ColorMap && !Occurs(color, "red") && Occurs(color, "yellow") ==>
              cls == ColorMap["yellow"]
    ensures color !in ColorMap && !Occurs(color, "red") && !Occurs(color, "yellow") && Occurs(color, "blue") ==>
              cls == ColorMap["blue"]
    ensures color !in ColorMap && !Occurs(color, "red") && !Occurs(color, "yellow") && !Occurs(color, "blue") ==>
              cls == ColorMap["green"]
  {
    IncludesIffOccurs(color, "red");
    IncludesIffOccurs(color, "yellow");
    IncludesIffOccurs(color, "blue");
    if color in ColorMap then ColorMap[color] else Fallback(color)
  }

  /** Names every JavaScript object literal inherits from Object.prototype. */
  const ObjectPrototypeNames: set<string> := {
    "constructor", "__proto__", "toString", "toLocaleString", "valueOf",
    "hasOwnProperty", "isPrototypeOf", "propertyIsEnumerable",
    "__defineGetter__", "__defineSetter__", "__lookupGetter__", "__lookupSetter__"
  }

  lemma PrototypeNamesAreNotPalette()
    ensures forall n :: n in ObjectPrototypeNames ==> n !in ColorMap
  {
  }

  /** What `colorClass` ends up holding: a class string, or an inherited
      member of Object.prototype (a function or an object), which is truthy. */
  datatype ClassValue = ClassString(cls: string) | InheritedMember(name: string)

  /** The lookup as the render loop writes it: `COLOR_MAP[color]` is an
      ordinary property read, so it also finds the inherited names, which
      are truthy and therefore skip the fallback. */
  function ResolveColorAsWritten(color: string): (v: ClassValue)
    ensures color !in ObjectPrototypeNames ==> v == ClassString(ResolveColor(color))
    ensures color in ObjectPrototypeNames ==> v.InheritedMember?
  {
    PrototypeNamesAreNotPalette();
    if color in ColorMap then ClassString(ColorMap[color])
    else if color in ObjectPrototypeNames then InheritedMember(color)
    else ClassString(Fallback(color))
  }

  /** A stored colour "toString" is drawn with no palette class at all. */
  lemma ToStringEscapesPalette()
    ensures ResolveColorAsWritten("toString") == InheritedMember("toString")
    ensures "toString" !in ColorMap
    ensures ResolveColor("toString") in ColorMap.Values
  {
    assert "toString" in ObjectPrototypeNames;
  }
}
