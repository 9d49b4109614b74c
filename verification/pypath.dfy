/** The part of Python's `posixpath` the retagging pass uses: `splitext`,
    whose leading-dots rule decides what counts as an extension. */
module PyPath {
  import opened PyStr

  predicate AllDots(t: string)
  {
    forall i :: 0 <= i < |t| ==> t[i] == '.'
  }

  /** `posixpath.basename(p)`: the text after the last `/`. */
  function Basename(p: string): string
  {
    p[RFind(p, '/') + 1..]
  }

  /** Where `posixpath.splitext(p)` cuts `p`: at the last `.`, provided that
      dot lies in the last path component and something other than dots
      precedes it within that component; otherwise at the end, leaving an
      empty extension. */
  function ExtStart(p: string): (k: nat)
    ensures k <= |p|
  {
    var sepIndex := RFind(p, '/');
    var dotIndex := RFind(p, '.');
    if dotIndex > sepIndex && !AllDots(p[sepIndex + 1..dotIndex]) then dotIndex else |p|
  }

  /** `posixpath.splitext(p)` as `(root, ext)`. */
  function Splitext(p: string): (r: (string, string))
    ensures r.0 + r.1 == p
  {
    var k := ExtStart(p);
    assert p[..k] + p[k..] == p;
    (p[..k], p[k..])
  }

  /** `p` has no extension: every dot of its last path component has only
      dots before it within that component. */
  predicate NoExtension(p: string)
  {
    var sepIndex := RFind(p, '/');
    forall d :: sepIndex < d < |p| && p[d] == '.' ==> AllDots(p[sepIndex + 1..d])
  }

  /** `splitext` returns an empty extension exactly when there is none to find;
      a non-empty extension is one dot followed by neither dots nor slashes,
      and the root it leaves behind ends in a component that is not all dots. */
  lemma SplitextExtension(p: string)
    ensures var (root, ext) := Splitext(p);
      && (ext == [] <==> NoExtension(p))
      && (ext == [] || (ext[0] == '.' && '.' !in ext[1..] && '/' !in ext && !AllDots(Basename(root))))
  {
    EmptyExtensionIff(p);
    var sepIndex := RFind(p, '/');
    var dotIndex := RFind(p, '.');
    if dotIndex > sepIndex && !AllDots(p[sepIndex + 1..dotIndex]) {
      assert ExtStart(p) == dotIndex;
      var ext := p[dotIndex..];
      assert Splitext(p) == (p[..dotIndex], ext);
      ExtensionTail(p, dotIndex, sepIndex);
      RFindPrefix(p, '/', dotIndex);
      assert Basename(p[..dotIndex]) == p[sepIndex + 1..dotIndex];
    }
  }

  /** `splitext` cuts at the end exactly when no dot of the last component
      follows a character other than a dot. */
  lemma EmptyExtensionIff(p: string)
    ensures ExtStart(p) == |p| <==> NoExtension(p)
  {
    var sepIndex := RFind(p, '/');
    var dotIndex := RFind(p, '.');
    if dotIndex > sepIndex && !AllDots(p[sepIndex + 1..dotIndex]) {
      assert !NoExtension(p);
    } else if dotIndex > sepIndex {
      var stem := p[sepIndex + 1..dotIndex];
      forall d | sepIndex < d < |p| && p[d] == '.'
        ensures AllDots(p[sepIndex + 1..d])
      {
        assert d <= dotIndex;
        var seg := p[sepIndex + 1..d];
        forall i | 0 <= i < |seg|
          ensures seg[i] == '.'
        {
          assert seg[i] == stem[i];
        }
      }
    }
  }

  /** The text from the last dot on, where that dot is after the last slash,
      holds no other dot and no slash. */
  lemma ExtensionTail(p: string, dotIndex: int, sepIndex: int)
    requires dotIndex == RFind(p, '.') && sepIndex == RFind(p, '/') && dotIndex > sepIndex
    ensures var ext := p[dotIndex..];
      ext[0] == '.' && '.' !in ext[1..] && '/' !in ext
  {
    var ext := p[dotIndex..];
    forall j | 1 <= j < |ext|
      ensures ext[j] != '.'
    {
      assert ext[j] == p[dotIndex + j];
    }
    forall j | 0 <= j < |ext|
      ensures ext[j] != '/'
    {
      assert ext[j] == p[dotIndex + j];
    }
    assert forall c :: c in ext[1..] ==> c != '.';
  }

  /** Cutting off a tail that does not contain `c` does not move the last `c`. */
  lemma RFindPrefix(s: string, c: char, k: nat)
    requires k <= |s|
    requires forall j :: k <= j < |s| ==> s[j] != c
    ensures RFind(s[..k], c) == RFind(s, c)
  {
    var i := RFind(s[..k], c);
    assert i >= 0 ==> s[i] == c;
  }
}
