/**
 Checks on names and file names (internal/envset/store.go:41-52, internal/envset/manager.go,
 internal/vault/store.go).
 */
module Names {
  import opened Trimming

  /** White space as Unicode has it. */
  predicate IsSpace(c: char) {
    c in ['\t', '\n', '\U{B}', '\U{C}', '\r', ' ', '\U{85}', '\U{A0}', '\U{1680}', '\U{2028}', '\U{2029}', '\U{202F}',
        '\U{205F}', '\U{3000}']
    || '\U{2000}' <= c <= '\U{200A}'
  }

  function Trim(s: string): string {
    Trimmed(s, IsSpace)
  }

  predicate IsLetter(c: char) {
    'a' <= c <= 'z' || 'A' <= c <= 'Z'
  }

  predicate IsDigit(c: char) {
    '0' <= c <= '9'
  }

  predicate IsNameChar(c: char) {
    IsLetter(c) || IsDigit(c) || c == '-' || c == '_' || c == '.'
  }

  /** A name of a set or an entry. Surrounding white space is tolerated, and kept. */
  predicate ValidName(name: string) {
    Trim(name) != "" && forall k :: 0 <= k < |Trim(name)| ==> IsNameChar(Trim(name)[k])
  }

  /** A name the vault accepts for a scope or a key. */
  predicate Storable(name: string) {
    Trim(name) != "" && '\0' !in name
  }

  /** An environment variable. */
  predicate ValidTarget(name: string) {
    name != "" && forall k :: 0 <= k < |name| ==> name[k] == '_' || IsLetter(name[k]) || (k > 0 && IsDigit(name[k]))
  }

  /** The check that a file name is its own base name; a lone slash passes it. */
  predicate IsBaseName(name: string) {
    name != "" && name != "." && name != ".." && ('/' !in name || name == "/")
  }

  predicate IsBlank(s: string) {
    forall k :: 0 <= k < |s| ==> IsSpace(s[k])
  }

  /** Letters, digits, hyphens, underscores and dots, at least one of them. */
  predicate IsPlainName(s: string) {
    s != "" && forall k :: 0 <= k < |s| ==>
      'a' <= s[k] <= 'z' || 'A' <= s[k] <= 'Z' || '0' <= s[k] <= '9' || s[k] == '-' || s[k] == '_' || s[k] == '.'
  }

  /** The name is core between white space. */
  predicate IsPadded(name: string, pre: string, core: string, post: string) {
    name == pre + core + post && IsBlank(pre) && IsBlank(post)
  }

  /** Accepted is exactly a plain name, with any white space around it. */
  lemma ValidNameMeans(name: string)
    ensures ValidName(name) <==> exists pre, core, post :: IsPadded(name, pre, core, post) && IsPlainName(core)
  {
    hide IsSpace, Trim;
    if ValidName(name) {
      var pre, core, post := AroundName(name);
      assert IsPadded(name, pre, core, post) && IsPlainName(core);
    }
    if pre, core, post :| IsPadded(name, pre, core, post) && IsPlainName(core) {
      PlainIsTrimmed(pre, core, post);
    }
  }

  lemma AroundName(name: string) returns (pre: string, core: string, post: string)
    ensures IsPadded(name, pre, core, post) && core == Trim(name)
  {
    hide IsSpace;
    var i, j := TrimSplits(name, IsSpace);
    pre, core, post := name[..i], name[i..j], name[j..];
    assert forall k :: 0 <= k < |post| ==> post[k] == name[j + k];
  }

  lemma PlainIsTrimmed(pre: string, core: string, post: string)
    requires IsBlank(pre) && IsBlank(post) && IsPlainName(core)
    ensures Trim(pre + core + post) == core
  {
    VisibleAscii(core[0]);
    VisibleAscii(core[|core| - 1]);
    hide IsSpace;
    TrimFinds(pre, core, post, IsSpace);
  }

  lemma VisibleAscii(c: char)
    requires '!' <= c <= '~'
    ensures !IsSpace(c)
  {
  }

  lemma ValidNamesAreStorable(name: string)
    requires ValidName(name)
    ensures Storable(name) && name != ""
  {
    var i, j := TrimSplits(name, IsSpace);
    forall k | 0 <= k < |name| ensures name[k] != '\0' {
      if i <= k < j {
        assert Trim(name)[k - i] == name[k];
      }
    }
  }

  /** Text with a visible character is not blank. */
  lemma VisibleIsNotBlank(s: string, k: nat)
    requires k < |s| && !IsSpace(s[k])
    ensures Trim(s) != ""
  {
    var i, j := TrimSplits(s, IsSpace);
  }
}
