/**
 * The product catalog and the two ways the list consults it: the exact
 * (folded) lookup `addProduct` performs, and the substring filter behind the
 * autocomplete suggestions.  The catalog itself is supplied by the caller.
 */
module Catalog {
  import opened Wrappers
  import opened Text

  /** One catalog entry: display name, image URL and unit symbol. */
  datatype Product = Product(name: string, image: string, unit: string)

  /** The image given to a product the catalog does not know. */
  const PlaceholderImage: string := "https://via.placeholder.com/40"

  /** The unit given to a product the catalog does not know. */
  const DefaultUnit: string := "un"

  /** What a trimmed product name resolves to before it becomes a list item. */
  datatype Resolved = Resolved(name: string, image: string, unit: string, placeholder: bool)

  /** A catalog entry as a resolved, non-placeholder product. */
  function FromCatalog(p: Product): Resolved
  {
    Resolved(p.name, p.image, p.unit, false)
  }

  /** Entry `k` is the first one whose folded name is `key`. */
  predicate FirstWithKey(catalog: seq<Product>, key: string, k: nat)
  {
    k < |catalog| && Fold(catalog[k].name) == key
    && forall j :: 0 <= j < k ==> Fold(catalog[j].name) != key
  }

  /** `Array.prototype.find` over the folded names: the index of the first entry whose folded name is `key`. */
  function FindIndex(catalog: seq<Product>, key: string): (r: Option<nat>)
    ensures r.Some? ==> FirstWithKey(catalog, key, r.value)
    ensures r.None? ==> forall j :: 0 <= j < |catalog| ==> Fold(catalog[j].name) != key
  {
    if catalog == [] then None
    else if Fold(catalog[0].name) == key then Some(0)
    else
      match FindIndex(catalog[1..], key)
      case None => None
      case Some(k) => Some(k + 1)
  }

  /** The catalog entry whose name equals `name` once both are folded, if any. */
  function Lookup(catalog: seq<Product>, name: string): (r: Option<Product>)
    ensures r.None? <==> forall j :: 0 <= j < |catalog| ==> Fold(catalog[j].name) != Fold(name)
    ensures r.Some? ==> exists k: nat :: FirstWithKey(catalog, Fold(name), k) && r.value == catalog[k]
  {
    match FindIndex(catalog, Fold(name))
    case None => None
    case Some(k) => Some(catalog[k])
  }

  /**
   * The name, image, unit and placeholder flag of a new item: those of the
   * first catalog entry with the same folded name, or else the name as typed
   * with the placeholder image and the unit `un`.
   */
  function Resolve(catalog: seq<Product>, name: string): (r: Resolved)
    ensures r.placeholder <==> forall j :: 0 <= j < |catalog| ==> Fold(catalog[j].name) != Fold(name)
    ensures r.placeholder ==> r == Resolved(name, PlaceholderImage, DefaultUnit, true)
    ensures !r.placeholder ==>
              exists k: nat :: FirstWithKey(catalog, Fold(name), k) && r == FromCatalog(catalog[k])
  {
    match Lookup(catalog, name)
    case None => Resolved(name, PlaceholderImage, DefaultUnit, true)
    case Some(p) => FromCatalog(p)
  }

  /** Looking up an already folded name finds the same entry: folding is idempotent. */
  lemma LookupOfFolded(catalog: seq<Product>, name: string)
    ensures Lookup(catalog, Fold(name)) == Lookup(catalog, name)
  {
    FoldIdempotent(name);
  }

  // ---------------------------------------------------------------- suggestions

  /** The entries whose folded name contains `key`, in catalog order (`Array.prototype.filter`). */
  function Matching(catalog: seq<Product>, key: string): (r: seq<Product>)
    ensures |r| <= |catalog|
  {
    if catalog == [] then []
    else (if Contains(Fold(catalog[0].name), key) then [catalog[0]] else []) + Matching(catalog[1..], key)
  }

  /** The filter keeps exactly the entries whose folded name contains `key`. */
  lemma {:induction false} MatchingMembers(catalog: seq<Product>, key: string)
    ensures forall p :: p in Matching(catalog, key) <==> p in catalog && Contains(Fold(p.name), key)
  {
    if catalog != [] {
      MatchingMembers(catalog[1..], key);
      assert catalog == [catalog[0]] + catalog[1..];
    }
  }

  /** Filtering a concatenation is concatenating the filtered parts: the catalog order is kept. */
  lemma {:induction false} MatchingAppend(a: seq<Product>, b: seq<Product>, key: string)
    ensures Matching(a + b, key) == Matching(a, key) + Matching(b, key)
  {
    if a == [] {
      assert a + b == b;
    } else {
      var h := MatchingStep(a, b, key);
      MatchingAppend(a[1..], b, key);
      Reassociate(h, Matching(a[1..], key), Matching(b, key));
    }
  }

  /** The first entry of `a` is decided on its own, in `a` and in `a + b` alike. */
  lemma MatchingStep(a: seq<Product>, b: seq<Product>, key: string) returns (h: seq<Product>)
    requires a != []
    ensures Matching(a, key) == h + Matching(a[1..], key)
    ensures Matching(a + b, key) == h + Matching(a[1..] + b, key)
  {
    h := if Contains(Fold(a[0].name), key) then [a[0]] else [];
    assert (a + b)[0] == a[0] && (a + b)[1..] == a[1..] + b;
  }

  /**
   * Associativity of concatenation, stated apart so that `MatchingAppend`
   * reasons about three filtered parts only, which keeps its proof cheap.
   */
  lemma Reassociate(x: seq<Product>, y: seq<Product>, z: seq<Product>)
    ensures x + (y + z) == (x + y) + z
  {
  }

  /**
   * `showSuggestions`: nothing while the folded query is shorter than two
   * characters; otherwise exactly the catalog entries whose folded name
   * contains the folded query.
   */
  function Suggestions(catalog: seq<Product>, query: string): (r: seq<Product>)
    ensures |Fold(query)| < 2 ==> r == []
    ensures |Fold(query)| >= 2 ==>
              forall p :: p in r <==> p in catalog && Contains(Fold(p.name), Fold(query))
  {
    var key := Fold(query);
    MatchingMembers(catalog, key);
    if |key| < 2 then [] else Matching(catalog, key)
  }

  /** Suggestions come in catalog order: those of `a + b` are those of `a` followed by those of `b`. */
  lemma SuggestionsInCatalogOrder(a: seq<Product>, b: seq<Product>, query: string)
    ensures Suggestions(a + b, query) == Suggestions(a, query) + Suggestions(b, query)
  {
    MatchingAppend(a, b, Fold(query));
  }

  /**
   * A catalog entry's own name, once trimming leaves it intact, resolves to
   * a catalog product: the first entry whose folded name equals its folded
   * name, which is `p` itself unless an earlier entry folds alike.
   */
  lemma CatalogNameResolves(catalog: seq<Product>, p: Product)
    requires p in catalog
    requires Trim(p.name) == p.name
    ensures !Resolve(catalog, Trim(p.name)).placeholder
    ensures exists k: nat :: FirstWithKey(catalog, Fold(p.name), k)
                             && Resolve(catalog, Trim(p.name)) == FromCatalog(catalog[k])
  {
    var k :| 0 <= k < |catalog| && catalog[k] == p;
    assert Fold(catalog[k].name) == Fold(p.name);
  }

  /**
   * Choosing a suggestion puts its name in the input and adds it; since every
   * suggestion is a catalog entry, when that name carries no surrounding
   * whitespace the add resolves to a catalog entry, never to a placeholder.
   */
  lemma ChosenSuggestionIsInCatalog(catalog: seq<Product>, query: string, p: Product)
    requires p in Suggestions(catalog, query)
    requires Trim(p.name) == p.name
    ensures !Resolve(catalog, Trim(p.name)).placeholder
  {
    CatalogNameResolves(catalog, p);
  }
}
