/**
 Paths in the tree of an asset card: the parent of a path, its depth, and the SQL filter for direct children.
 */
module AssetTree {
  import opened Wrappers

  // ---- Parts of a path ----

  predicate IsDigit(c: char) {
    '0' <= c <= '9'
  }

  predicate Digits(s: string) {
    s != "" && forall i :: 0 <= i < |s| ==> IsDigit(s[i])
  }

  /** rfind: the last position of a character, or -1. */
  function LastIndex(s: string, c: char): (i: int)
    ensures -1 <= i < |s|
    ensures i >= 0 ==> s[i] == c
    ensures forall j :: i < j < |s| ==> s[j] != c
  {
    if s == "" then -1
    else if s[|s| - 1] == c then |s| - 1
    else LastIndex(s[..|s| - 1], c)
  }

  /** `base` followed by an index in brackets. */
  ghost predicate IndexedBy(path: string, base: string) {
    exists digits :: Digits(digits) && path == base + "[" + digits + "]"
  }

  /** What precedes an index in brackets at the end of a path. */
  function StripIndex(path: string): (base: Option<string>)
    ensures base.Some? ==> IndexedBy(path, base.value) && |base.value| + 3 <= |path|
  {
    if path == "" || path[|path| - 1] != ']' then None
    else
      var inner := path[..|path| - 1];
      var bracket := LastIndex(inner, '[');
      if bracket >= 0 && Digits(inner[bracket + 1..]) then
        assert path == inner[..bracket] + "[" + inner[bracket + 1..] + "]";
        Some(inner[..bracket])
      else None
  }

  /** The base is determined by the path. */
  lemma IndexedExactly(path: string, base: string)
    ensures IndexedBy(path, base) <==> StripIndex(path) == Some(base)
  {
    if IndexedBy(path, base) {
      var digits :| Digits(digits) && path == base + "[" + digits + "]";
      var inner := path[..|path| - 1];
      assert inner == base + "[" + digits;
      assert inner[|base|] == '[';
      assert forall j :: |base| < j < |inner| ==> inner[j] == digits[j - |base| - 1];
      assert LastIndex(inner, '[') == |base|;
      assert inner[|base| + 1..] == digits && inner[..|base|] == base;
    }
  }

  // ---- Parent and depth ----

  function Parent(path: string): Option<string> {
    if path == "" || path == "asset" then None
    else if StripIndex(path).Some? then StripIndex(path)
    else
      var dot := LastIndex(path, '.');
      if dot <= 0 then Some("asset") else Some(path[..dot])
  }

  /** Stepping up can lengthen a path (to "asset"), but this falls. */
  function Height(path: string): nat {
    if path == "" || path == "asset" then 0 else |path| + 1
  }

  lemma ParentIsLower(path: string)
    requires Parent(path).Some?
    ensures Height(Parent(path).value) < Height(path)
  {
  }

  function Depth(path: string): nat
    decreases Height(path)
  {
    match Parent(path)
    case None => 0
    case Some(parent) =>
      ParentIsLower(path);
      if parent == "" then 0 else 1 + Depth(parent)
  }

  /** Counts the steps up; an empty path ends the loop like a missing one. */
  method TreeDepth(path: string) returns (depth: nat)
    ensures depth == Depth(path)
  {
    depth := 0;
    var current := Parent(path);
    while current.Some? && current.value != ""
      invariant Depth(path) == depth + if current.Some? && current.value != "" then 1 + Depth(current.value) else 0
      decreases if current.Some? then 1 + Height(current.value) else 0
    {
      depth := depth + 1;
      if Parent(current.value).Some? {
        ParentIsLower(current.value);
      }
      current := Parent(current.value);
    }
  }

  // ---- The direct-child filter ----

  predicate HasNo(s: string, c: char) {
    forall i :: 0 <= i < |s| ==> s[i] != c
  }

  /** `path LIKE 'prefix%'` with neither a dot nor a bracket in what follows the prefix. */
  predicate OneStepBelow(prefix: string, path: string) {
    prefix <= path && HasNo(path[|prefix|..], '.') && HasNo(path[|prefix|..], '[')
  }

  ghost predicate Selects(parent: string, path: string) {
    if parent == "asset" then
      OneStepBelow("asset.", path) || (HasNo(path, '.') && HasNo(path, '[') && path != "asset")
    else
      OneStepBelow(parent + ".", path) || IndexedBy(path, parent)
  }

  /** The paths that the filter finds under their parent. */
  predicate Listed(path: string) {
    match StripIndex(path)
    case Some(base) => base != "asset"
    case None =>
      var dot := LastIndex(path, '.');
      dot != 0 && HasNo(path[dot + 1..], '[')
  }

  lemma LastIndexAt(s: string, c: char, i: nat)
    requires i < |s| && s[i] == c && HasNo(s[i + 1..], c)
    ensures LastIndex(s, c) == i
  {
  }

  lemma NoIndexAfterDot(prefix: string, path: string)
    requires prefix != "" && prefix[|prefix| - 1] == '.' && OneStepBelow(prefix, path)
    ensures StripIndex(path).None?
  {
  }

  lemma OneStepBelowExactly(parent: string, path: string)
    requires parent != ""
    ensures OneStepBelow(parent + ".", path)
       <==> && StripIndex(path).None? && LastIndex(path, '.') > 0 && path[..LastIndex(path, '.')] == parent
            && HasNo(path[LastIndex(path, '.') + 1..], '[')
  {
    var dot := LastIndex(path, '.');
    if OneStepBelow(parent + ".", path) {
      NoIndexAfterDot(parent + ".", path);
      var rest := path[|parent| + 1..];
      assert path[|parent|] == (parent + ".")[|parent|] && path[..|parent|] == parent;
      LastIndexAt(path, '.', |parent|);
    }
    if dot > 0 && path[..dot] == parent {
      assert path[..dot + 1] == parent + ".";
    }
  }

  lemma NoDot(path: string)
    ensures HasNo(path, '.') <==> LastIndex(path, '.') == -1
  {
  }

  lemma NoBracketNoIndex(path: string)
    requires HasNo(path, '[')
    ensures StripIndex(path).None?
  {
  }

  lemma AssetIsNotBelow()
    ensures !OneStepBelow("asset.", "asset")
  {
  }

  /** The filter for a parent selects exactly the listed paths that have this parent. */
  lemma FilterAgreesWithParent(parent: string, path: string)
    requires parent != "" && path != ""
    ensures Selects(parent, path) <==> Parent(path) == Some(parent) && Listed(path)
  {
    hide LastIndex;
    hide IndexedBy;
    hide OneStepBelow;
    if parent == "asset" {
      AssetFilterAgrees(path);
    } else {
      OneStepBelowExactly(parent, path);
      IndexedExactly(path, parent);
    }
  }

  lemma AssetFilterAgrees(path: string)
    requires path != ""
    ensures Selects("asset", path) <==> Parent(path) == Some("asset") && Listed(path)
  {
    hide LastIndex;
    hide IndexedBy;
    hide OneStepBelow;
    hide HasNo;
    assert "asset" + "." == "asset.";
    OneStepBelowExactly("asset", path);
    AssetIsNotBelow();
    IndexedExactly(path, "asset");
    NoDot(path);
    if HasNo(path, '[') {
      NoBracketNoIndex(path);
    }
    if LastIndex(path, '.') == -1 {
      assert path[LastIndex(path, '.') + 1..] == path;
    }
  }

  /** So no path is listed under two parents. */
  lemma OneParentAtMost(p: string, q: string, path: string)
    requires p != "" && q != "" && path != "" && Selects(p, path) && Selects(q, path)
    ensures p == q
  {
    FilterAgreesWithParent(p, path);
    FilterAgreesWithParent(q, path);
  }

  // ---- Well-formed paths ----

  /** A top-level name, a named child, or an item of a collection. */
  datatype Path = Top(name: string) | Child(parent: Path, name: string) | Item(parent: Path, index: string)

  predicate Name(s: string) {
    s != "" && HasNo(s, '.') && HasNo(s, '[') && HasNo(s, ']')
  }

  predicate WellFormed(p: Path) {
    match p
    case Top(name) => Name(name)
    case Child(parent, name) => WellFormed(parent) && Name(name)
    case Item(parent, index) => WellFormed(parent) && Digits(index)
  }

  function Show(p: Path): string {
    match p
    case Top(name) => name
    case Child(parent, name) => Show(parent) + "." + name
    case Item(parent, index) => Show(parent) + "[" + index + "]"
  }

  const ASSET: Path := Top("asset")

  lemma ChildShown(parent: string, name: string)
    requires parent != "" && Name(name)
    ensures var path := parent + "." + name;
      path != "asset" && Parent(path) == Some(parent) && Listed(path)
  {
    var path := parent + "." + name;
    assert path[|parent|] == '.' && path[|parent| + 1..] == name && path[..|parent|] == parent;
    LastIndexAt(path, '.', |parent|);
    assert parent + "." <= path && path[|parent + "."|..] == name;
    NoIndexAfterDot(parent + ".", path);
  }

  lemma ItemShown(parent: string, index: string)
    requires parent != "" && Digits(index)
    ensures var path := parent + "[" + index + "]";
      path != "asset" && Parent(path) == Some(parent) && (Listed(path) <==> parent != "asset")
  {
    var path := parent + "[" + index + "]";
    assert IndexedBy(path, parent);
    IndexedExactly(path, parent);
    assert path[|path| - 1] == ']';
  }

  lemma TopShown(name: string)
    requires Name(name)
    ensures Parent(name) == (if name == "asset" then None else Some("asset")) && Listed(name)
  {
  }

  lemma ShownIsNotEmpty(p: Path)
    requires WellFormed(p)
    ensures Show(p) != ""
  {
  }

  /** A path written out has the parent it was built from. */
  lemma ParentOfShown(p: Path)
    requires WellFormed(p)
    ensures Show(p) != ""
    ensures Parent(Show(p)) == match p
                               case Top(name) => if name == "asset" then None else Some("asset")
                               case Child(parent, _) => Some(Show(parent))
                               case Item(parent, _) => Some(Show(parent))
    ensures Listed(Show(p)) <==> !(p.Item? && p.parent == ASSET)
  {
    hide Parent;
    hide Listed;
    match p
    case Top(name) => TopShown(name);
    case Child(parent, name) =>
      ShownIsNotEmpty(parent);
      ChildShown(Show(parent), name);
    case Item(parent, index) =>
      ShownIsNotEmpty(parent);
      ItemShown(Show(parent), index);
      if Show(parent) == "asset" {
        OnlyTopShowsAsset(parent);
      }
  }

  lemma OnlyTopShowsAsset(p: Path)
    requires WellFormed(p) && Show(p) == "asset"
    ensures p == ASSET
  {
    match p
    case Top(_) =>
    case Child(parent, name) =>
      ShownIsNotEmpty(parent);
      ChildShown(Show(parent), name);
    case Item(parent, index) =>
      ShownIsNotEmpty(parent);
      ItemShown(Show(parent), index);
  }

  /** Every well-formed path but "asset" and its bare items is selected by exactly one parent, the path above it. */
  lemma SelectedByExactlyOne(p: Path)
    requires WellFormed(p)
    ensures (exists parent :: parent != "" && Selects(parent, Show(p)))
       <==> p != ASSET && !(p.Item? && p.parent == ASSET)
    ensures forall parent :: parent != "" && Selects(parent, Show(p)) ==> Parent(Show(p)) == Some(parent)
  {
    ParentOfShown(p);
    forall parent | parent != ""
      ensures Selects(parent, Show(p)) <==> Parent(Show(p)) == Some(parent) && Listed(Show(p))
    {
      FilterAgreesWithParent(parent, Show(p));
    }
    if p != ASSET && !(p.Item? && p.parent == ASSET) {
      if !p.Top? {
        ParentOfShown(p.parent);
      }
      assert Selects(Parent(Show(p)).value, Show(p));
    }
  }

  function Steps(p: Path): nat {
    match p
    case Top(name) => if name == "asset" then 0 else 1
    case Child(parent, _) => 1 + Steps(parent)
    case Item(parent, _) => 1 + Steps(parent)
  }

  /** The depth loop counts the steps a path was built with. */
  lemma {:induction false} DepthOfShown(p: Path)
    requires WellFormed(p)
    ensures Depth(Show(p)) == Steps(p)
  {
    ParentOfShown(p);
    if p.Top? {
      assert Depth("asset") == 0;
    } else {
      ParentOfShown(p.parent);
      DepthOfShown(p.parent);
    }
  }
}
