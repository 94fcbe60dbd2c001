/** File-name rule of the CSV import and export dialogs and the map's PDF and PNG save
    dialogs: when the chosen name does not end in the expected extension (compared
    case-insensitively) the extension is appended. */
module FileNames {
  import opened Wrappers

  /** The case mapping of QString::toLower on ASCII letters. */
  function LowerChar(c: char): char {
    if 'A' <= c <= 'Z' then (c as int + 32) as char else c
  }

  function ToLower(s: string): (r: string)
    ensures |r| == |s|
    ensures forall i :: 0 <= i < |s| ==> r[i] == LowerChar(s[i])
  {
    if s == [] then [] else [LowerChar(s[0])] + ToLower(s[1..])
  }

  predicate EndsWith(s: string, suffix: string) {
    |suffix| <= |s| && s[|s| - |suffix|..] == suffix
  }

  predicate IsLower(s: string) {
    ToLower(s) == s
  }

  /** Lower-casing works character by character, so it distributes over concatenation. */
  lemma {:induction false} ToLowerAppend(a: string, b: string)
    ensures ToLower(a + b) == ToLower(a) + ToLower(b)
  {
    if a != [] {
      assert (a + b)[1..] == a[1..] + b;
      ToLowerAppend(a[1..], b);
    }
  }

  /** `fileName.toLower().endsWith(ext)` decides whether `ext` is appended. */
  function WithExtension(name: string, ext: string): (r: string)
    ensures r == name || r == name + ext
    ensures IsLower(ext) ==> EndsWith(ToLower(r), ext)
    ensures EndsWith(ToLower(name), ext) ==> r == name
  {
    if EndsWith(ToLower(name), ext) then name
    else
      ToLowerAppend(name, ext);
      name + ext
  }

  /** Normalising a name that was already normalised changes nothing. */
  lemma WithExtensionIdempotent(name: string, ext: string)
    requires IsLower(ext)
    ensures WithExtension(WithExtension(name, ext), ext) == WithExtension(name, ext)
  {
  }

  /** A dialog that returns the empty name was cancelled: nothing is saved or opened.
      Otherwise the file used is the name with its extension ensured. */
  function ChosenFile(dialogResult: string, ext: string): (r: Option<string>)
    ensures r.None? <==> dialogResult == ""
    ensures r.Some? && IsLower(ext) ==> EndsWith(ToLower(r.value), ext)
    ensures r.Some? ==> |r.value| >= |dialogResult|
    ensures r.Some? ==> r.value[..|dialogResult|] == dialogResult
    ensures r.Some? ==> r.value == dialogResult || r.value == dialogResult + ext
    ensures r.Some? && EndsWith(ToLower(dialogResult), ext) ==> r.value == dialogResult
  {
    if dialogResult == "" then None else Some(WithExtension(dialogResult, ext))
  }
}
