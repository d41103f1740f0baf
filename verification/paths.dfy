/** Paths as text: their parts, and the order the library compares them in. */
module Paths {

  /** The parts of a path, in the order the library iterates over them. */
  type Path = seq<string>

  /** The non-empty pieces between separators. */
  function Names(s: string): (r: seq<string>)
    ensures forall i :: 0 <= i < |r| ==> r[i] != "" && '/' !in r[i]
  {
    NamesFrom(s, "")
  }

  function NamesFrom(s: string, name: string): (r: seq<string>)
    requires '/' !in name
    ensures forall i :: 0 <= i < |r| ==> r[i] != "" && '/' !in r[i]
    decreases |s|
  {
    if s == "" then (if name == "" then [] else [name])
    else if s[0] == '/' then (if name == "" then [] else [name]) + NamesFrom(s[1..], "")
    else NamesFrom(s[1..], name + [s[0]])
  }

  predicate IsAbsolute(s: string) { s != "" && s[0] == '/' }

  /** The parts that iterating over the path gives, without the empty one that a trailing
      separator adds. */
  function Parts(s: string): (r: seq<string>)
    ensures "" !in r
  {
    (if IsAbsolute(s) then ["/"] else []) + Names(s)
  }

  function Terminated(names: seq<string>): (r: string) {
    if names == [] then "" else names[0] + "\0" + Terminated(names[1..])
  }

  /** Comparing these keys compares paths part by part, relative ones first. */
  function OrderKey(s: string): (r: string) {
    (if IsAbsolute(s) then "\U{1}" else "\0") + Terminated(Names(s))
  }

  /** The `/` operator: an absolute right side replaces the left one. */
  function Join(a: string, b: string): (r: string)
    ensures IsAbsolute(a) || IsAbsolute(b) ==> IsAbsolute(r)
  {
    if IsAbsolute(b) || a == "" then b
    else if a[|a|-1] == '/' then a + b
    else a + "/" + b
  }
}
