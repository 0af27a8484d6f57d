/** `UidGenerator`: the identifiers the report uses for components and units. */
module UidGenerator {
  import opened Text

  /** The characters the pattern `[ \/\\]` matches. */
  predicate IsSeparator(c: char)
  {
    c == ' ' || c == '/' || c == '\\'
  }

  /** Each separator character replaced by `-`. */
  function Dashify(s: string): (r: string)
    ensures |r| == |s|
    ensures forall i :: 0 <= i < |s| ==> r[i] == if IsSeparator(s[i]) then '-' else s[i]
    decreases |s|
  {
    if s == [] then [] else [if IsSeparator(s[0]) then '-' else s[0]] + Dashify(s[1..])
  }

  /** `generateUid`: separators become `-`, then the result is lower-cased. */
  function GenerateUid(name: string): (r: string)
    ensures |r| == |name|
    ensures forall i :: 0 <= i < |r| ==> !IsSeparator(r[i]) && !('A' <= r[i] <= 'Z')
    ensures forall i :: 0 <= i < |r| ==> r[i] == LowerChar(if IsSeparator(name[i]) then '-' else name[i])
  {
    Lower(Dashify(name))
  }

  lemma GenerateUidIdempotent(name: string)
    ensures GenerateUid(GenerateUid(name)) == GenerateUid(name)
  {
    var u := GenerateUid(name);
    assert forall i :: 0 <= i < |u| ==> GenerateUid(u)[i] == u[i];
  }

  lemma GenerateUidExamples()
    ensures GenerateUid("A\\B") == "a-b"
    ensures GenerateUid("a/b") == "a-b"
    ensures GenerateUid("a b") == "a-b"
  {
  }
}
