/**
 * `PathHelper`: slash normalisation and the file-path-to-namespace mapping
 * that names the units found in a component's files.
 */
module PathHelper {
  import opened Text

  /** `removeDoubleSlashes`: every run of `/` becomes a single `/`. */
  function RemoveDoubleSlashes(s: string): (r: string)
    ensures NoDoubled(r, '/')
    ensures |r| <= |s|
    ensures NoDoubled(s, '/') ==> r == s
    ensures forall d :: d in r <==> d in s
  {
    SqueezeNoDoubled(s, '/');
    forall d ensures d in Squeeze(s, '/') <==> d in s {
      SqueezeKeepsChar(s, '/', d);
    }
    if NoDoubled(s, '/') then SqueezeOfNoDoubled(s, '/'); Squeeze(s, '/')
    else Squeeze(s, '/')
  }

  lemma RemoveDoubleSlashesIdempotent(s: string)
    ensures RemoveDoubleSlashes(RemoveDoubleSlashes(s)) == RemoveDoubleSlashes(s)
  {
  }

  /** Characters other than `/` survive, in order. */
  lemma RemoveDoubleSlashesKeepsOthers(s: string)
    ensures RemoveChar(RemoveDoubleSlashes(s), '/') == RemoveChar(s, '/')
  {
    SqueezeKeepsOthers(s, '/');
  }

  /** `removeDoubleBackslashes`: every run of `\` becomes a single `\`. */
  function RemoveDoubleBackslashes(s: string): (r: string)
    ensures NoDoubled(r, '\\')
    ensures |r| <= |s|
    ensures NoDoubled(s, '\\') ==> r == s
    ensures forall d :: d in r <==> d in s
  {
    SqueezeNoDoubled(s, '\\');
    forall d ensures d in Squeeze(s, '\\') <==> d in s {
      SqueezeKeepsChar(s, '\\', d);
    }
    if NoDoubled(s, '\\') then SqueezeOfNoDoubled(s, '\\'); Squeeze(s, '\\')
    else Squeeze(s, '\\')
  }

  lemma RemoveDoubleBackslashesIdempotent(s: string)
    ensures RemoveDoubleBackslashes(RemoveDoubleBackslashes(s)) == RemoveDoubleBackslashes(s)
  {
  }

  /** Characters other than `\` survive, in order. */
  lemma RemoveDoubleBackslashesKeepsOthers(s: string)
    ensures RemoveChar(RemoveDoubleBackslashes(s), '\\') == RemoveChar(s, '\\')
  {
    SqueezeKeepsOthers(s, '\\');
  }

  /**
   * `pathToNamespace`: after collapsing runs of `/`, each `/` becomes `\` and
   * then each case-sensitive `.php` is deleted.
   */
  function PathToNamespace(filePath: string): string
  {
    ReplaceAll(ReplaceAll(RemoveDoubleSlashes(filePath), "/", "\\"), ".php", "")
  }

  /** The namespace has no `/`, and no character that is neither `\` nor in the path. */
  lemma PathToNamespaceChars(filePath: string)
    ensures '/' !in PathToNamespace(filePath)
    ensures forall c :: c !in filePath && c != '\\' ==> c !in PathToNamespace(filePath)
  {
    var t := ReplaceAll(RemoveDoubleSlashes(filePath), "/", "\\");
    ReplaceCharGone(RemoveDoubleSlashes(filePath), '/', "\\");
    ReplaceByEmptyIntroducesNothing(t, ".php", '/');
    forall c | c !in filePath && c != '\\' ensures c !in ReplaceAll(t, ".php", "") {
      ReplaceCharIntroducesNothing(RemoveDoubleSlashes(filePath), '/', "\\", c);
      ReplaceByEmptyIntroducesNothing(t, ".php", c);
    }
  }

  /** `pathToNamespace` of `/A/B.php` is `\\A\\B` for any segments free of `/` and `.`. */
  lemma PathToNamespaceOfFile(a: string, b: string)
    requires a != [] && '/' !in a && '/' !in b && '.' !in a && '.' !in b
    ensures PathToNamespace("/" + a + "/" + b + ".php") == "\\" + a + "\\" + b
  {
    var p := "/" + a + "/" + b + ".php";
    FilePathSingleSlashes(a, b);
    assert RemoveDoubleSlashes(p) == p;
    FilePathSlashesReplaced(a, b);
    var t := "\\" + a + "\\" + b;
    ReplaceAllSkipsPrefix(t, ".php", ".php", "");
    assert ".php"[..4] == ".php";
  }

  lemma FilePathSingleSlashes(a: string, b: string)
    requires a != [] && '/' !in a && '/' !in b
    ensures NoDoubled("/" + a + "/" + b + ".php", '/')
  {
    var p := "/" + a + "/" + b + ".php";
    forall i | 0 <= i < |p| - 1 ensures !(p[i] == '/' && p[i + 1] == '/') {
      if i == 0 {
        assert p[1] == a[0];
      } else if i <= |a| {
        assert p[i] == a[i - 1];
      } else if i == |a| + 1 {
        assert p[i + 1] == (b + ".php")[0];
      } else if i < |a| + 2 + |b| {
        assert p[i] == b[i - |a| - 2];
      } else {
        assert p[i] == ".php"[i - |a| - 2 - |b|];
      }
    }
  }

  lemma FilePathSlashesReplaced(a: string, b: string)
    requires '/' !in a && '/' !in b
    ensures ReplaceAll("/" + a + "/" + b + ".php", "/", "\\") == "\\" + a + "\\" + b + ".php"
  {
    var r := (s: string) => ReplaceAll(s, "/", "\\");
    assert r("/") == "\\";
    ReplaceCharAbsent(a, '/', "\\");
    ReplaceCharAbsent(b, '/', "\\");
    ReplaceCharAbsent(".php", '/', "\\");
    ReplaceCharAppend("/", a, '/', "\\");
    assert r("/" + a) == "\\" + a;
    ReplaceCharAppend("/" + a, "/", '/', "\\");
    assert r("/" + a + "/") == "\\" + a + "\\";
    ReplaceCharAppend("/" + a + "/", b, '/', "\\");
    assert r("/" + a + "/" + b) == "\\" + a + "\\" + b;
    ReplaceCharAppend("/" + a + "/" + b, ".php", '/', "\\");
  }
}
