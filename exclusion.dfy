/** `ExclusionChecker`: tokens that name no class of their own. */
module Exclusion {
  /** The names `isExclusion` accepts; `in_array` on strings that are not numeric compares them exactly. */
  const Exclusions: seq<string> := ["self", "static", "parent", "void"]

  predicate IsExclusion(element: string)
  {
    element in Exclusions
  }

  /** Exactly `self`, `static`, `parent` and `void`, case-sensitively. */
  lemma IsExclusionExactly(element: string)
    ensures IsExclusion(element) <==> element == "self" || element == "static" || element == "parent" || element == "void"
  {
  }

  lemma IsExclusionExamples()
    ensures IsExclusion("self") && IsExclusion("static") && IsExclusion("parent") && IsExclusion("void")
    ensures !IsExclusion("Self") && !IsExclusion("STATIC") && !IsExclusion("null") && !IsExclusion("mixed")
    ensures !IsExclusion("int") && !IsExclusion("")
  {
    IsExclusionExactly("Self");
    IsExclusionExactly("STATIC");
    IsExclusionExactly("null");
    IsExclusionExactly("mixed");
    IsExclusionExactly("int");
    IsExclusionExactly("");
  }
}
