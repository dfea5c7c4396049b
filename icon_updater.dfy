/**
 * The icon updater script (icon_updater.ts): for each product it builds a
 * slug from the product's name, takes the first file of the icon directory
 * whose lower-cased name contains that slug, and points the product's `icon`
 * at that file.
 *
 * The slug is modelled as the script writes it: the pattern `/\\s/g` is a
 * regular expression for a backslash followed by the letter `s`, not for
 * white space, so the spaces of a name stay in its slug.
 */
module IconUpdater {
  import opened Wrappers
  import opened Text
  import opened Types

  /** The two-character text the slug pattern matches: a backslash, then `s`. */
  const Pattern: string := "\\s"

  /** `path.join('/', 'public/icons', file)` for a plain file name. */
  const IconPrefix: string := "/public/icons/"

  /** `name.toLowerCase().replace(/\\s/g, '-')`. */
  function Slug(name: string): (slug: string)
    ensures !Contains(slug, Pattern)
  {
    JoinHasNoPattern(Split(ToLower(name), Pattern));
    Join(Split(ToLower(name), Pattern), "-")
  }

  /** A trailing backslash cannot complete the pattern, which ends in `s`. */
  lemma NoPatternWithBackslash(t: string)
    requires !Contains(t, Pattern)
    ensures !Contains(t + Pattern[..1], Pattern)
  {
    var u := t + Pattern[..1];
    forall j | 0 <= j ensures !OccursAt(u, Pattern, j) {
      if j + 2 <= |t| {
        assert !OccursAt(t, Pattern, j) by {
          if OccursAt(t, Pattern, j) {
            OccursAtContains(t, Pattern, j);
          }
        }
        assert u[j..j + 2] == t[j..j + 2];
      } else if j + 2 == |u| {
        assert u[j + 1] == Pattern[0];
        assert u[j..j + 2][1] != Pattern[1];
      }
    }
  }

  /** The slug is the lower-cased name cut at its backslash-`s` pairs and
      rejoined with `-`. */
  lemma SlugCuts(name: string)
    ensures exists parts ::
              && |parts| >= 1
              && (forall k :: 0 <= k < |parts| ==> !Contains(parts[k], Pattern))
              && Join(parts, Pattern) == ToLower(name)
              && Slug(name) == Join(parts, "-")
  {
    JoinSplit(ToLower(name), Pattern);
    var parts := Split(ToLower(name), Pattern);
    assert Slug(name) == Join(parts, "-");
  }

  /** Every cutting of the lower-cased name at its pairs gives the slug: each
      pair becomes `-` and every other character is kept. */
  lemma SlugReplacesPairs(name: string, parts: seq<string>)
    requires |parts| >= 1
    requires forall k :: 0 <= k < |parts| ==> !Contains(parts[k], Pattern)
    requires Join(parts, Pattern) == ToLower(name)
    ensures Slug(name) == Join(parts, "-")
  {
    forall k | 0 <= k < |parts| - 1
      ensures !Contains(parts[k] + Pattern[..|Pattern| - 1], Pattern)
    {
      NoPatternWithBackslash(parts[k]);
    }
    SplitUnique(parts, ToLower(name), Pattern);
  }

  /** `file.toLowerCase().includes(slug)`. */
  predicate Matches(file: string, slug: string) {
    Contains(ToLower(file), slug)
  }

  /** `files.find(...)`, as the index of the file found. */
  function FirstMatch(files: seq<string>, slug: string): (r: Option<nat>)
    ensures r.Some? ==> r.value < |files| && Matches(files[r.value], slug)
    ensures r.Some? ==> forall j :: 0 <= j < r.value ==> !Matches(files[j], slug)
    ensures r.None? ==> forall j :: 0 <= j < |files| ==> !Matches(files[j], slug)
  {
    if files == [] then None
    else if Matches(files[0], slug) then Some(0)
    else match FirstMatch(files[1..], slug)
      case None => None
      case Some(j) => Some(j + 1)
  }

  /** The product as the `map` callback leaves it. */
  function WithIcon(p: Product, files: seq<string>): (q: Product)
    ensures q.(icon := p.icon) == p
    ensures FirstMatch(files, Slug(p.name)).None? ==> q == p
    ensures FirstMatch(files, Slug(p.name)).Some? ==>
      q.icon == IconPrefix + files[FirstMatch(files, Slug(p.name)).value]
  {
    match FirstMatch(files, Slug(p.name))
    case None => p
    case Some(j) => p.(icon := IconPrefix + files[j])
  }

  /** The products after the script's `map`: one result per product, in order. */
  function UpdatedProducts(ps: seq<Product>, files: seq<string>): (r: seq<Product>)
    ensures |r| == |ps|
    ensures forall i :: 0 <= i < |ps| ==> r[i] == WithIcon(ps[i], files)
  {
    seq(|ps|, i requires 0 <= i < |ps| => WithIcon(ps[i], files))
  }

  /** The `find` over the icon listing, as the loop it performs. */
  method FindIcon(files: seq<string>, slug: string) returns (found: Option<string>)
    ensures found.None? <==> FirstMatch(files, slug).None?
    ensures found.Some? ==> found.value == files[FirstMatch(files, slug).value]
  {
    var i := 0;
    while i < |files|
      invariant 0 <= i <= |files|
      invariant forall j :: 0 <= j < i ==> !Matches(files[j], slug)
    {
      if Matches(files[i], slug) {
        FirstMatchIsFirst(files, slug, i);
        return Some(files[i]);
      }
      i := i + 1;
    }
    return None;
  }

  /** A matching file with no match before it is the one `find` returns. */
  lemma FirstMatchIsFirst(files: seq<string>, slug: string, i: nat)
    requires i < |files| && Matches(files[i], slug)
    requires forall j :: 0 <= j < i ==> !Matches(files[j], slug)
    ensures FirstMatch(files, slug) == Some(i)
  {
  }

  /** The script's `map`: each product object gets its icon in place. */
  method UpdateIcons(products: array<Product>, files: seq<string>)
    modifies products
    ensures products[..] == UpdatedProducts(old(products[..]), files)
  {
    for i := 0 to products.Length
      invariant products[..i] == UpdatedProducts(old(products[..]), files)[..i]
      invariant products[i..] == old(products[..])[i..]
    {
      var product := products[i];
      var productName := Slug(product.name);
      var iconFile := FindIcon(files, productName);
      if iconFile.Some? {
        products[i] := product.(icon := IconPrefix + iconFile.value);
      }
      assert products[i] == WithIcon(old(products[i]), files);
    }
  }

  /** Only `icon` changes; it becomes the path of the first matching file, and a
      product with no matching file is left as it was. */
  lemma WithIconSpec(p: Product, files: seq<string>)
    ensures WithIcon(p, files).(icon := p.icon) == p
    ensures FirstMatch(files, Slug(p.name)).None? ==> WithIcon(p, files) == p
    ensures FirstMatch(files, Slug(p.name)).Some? ==>
      exists j :: 0 <= j < |files| && Matches(files[j], Slug(p.name))
        && WithIcon(p, files).icon == IconPrefix + files[j]
        && forall k :: 0 <= k < j ==> !Matches(files[k], Slug(p.name))
  {
  }

  /** Running the update a second time changes nothing: the name, and so the
      slug and the file found, are what they were. */
  lemma UpdateIdempotent(ps: seq<Product>, files: seq<string>)
    ensures UpdatedProducts(UpdatedProducts(ps, files), files) == UpdatedProducts(ps, files)
  {
    var once := UpdatedProducts(ps, files);
    forall i | 0 <= i < |ps| ensures WithIcon(once[i], files) == once[i] {
      assert once[i].name == ps[i].name;
    }
  }

  /** The update keeps the products' number and order: ids, names, changes and
      links stay where they were. */
  lemma UpdateKeepsOrder(ps: seq<Product>, files: seq<string>)
    ensures |UpdatedProducts(ps, files)| == |ps|
    ensures forall i :: 0 <= i < |ps| ==>
      UpdatedProducts(ps, files)[i].(icon := ps[i].icon) == ps[i]
  {
    forall i | 0 <= i < |ps| ensures UpdatedProducts(ps, files)[i].(icon := ps[i].icon) == ps[i] {
      WithIconSpec(ps[i], files);
    }
  }

  /** Every text contains the empty text. */
  lemma ContainsEmpty(s: string)
    ensures Contains(s, "")
  {
    assert OccursAt(s, "", 0);
  }

  /** An empty slug, as an empty name gives, matches the first file of a
      non-empty listing. */
  lemma EmptySlugTakesFirstFile(files: seq<string>)
    requires |files| > 0
    ensures FirstMatch(files, "") == Some(0)
  {
    ContainsEmpty(ToLower(files[0]));
  }

  /** An empty name has an empty slug; a backslash followed by `s` becomes `-`. */
  lemma SlugExamples()
    ensures Slug("") == "" && Slug("\\s") == "-"
  {
    assert OccursAt("\\s", Pattern, 0);
    assert Split("\\s", Pattern) == ["", ""] by {
      assert IndexOf("\\s", Pattern) == Some(0);
      assert ("\\s")[2..] == "";
    }
  }

  /** A match at `i` in `a + b` lying wholly past `a` is a match in `b`. */
  lemma OccursPast(a: string, b: string, sub: string, i: int)
    requires OccursAt(a + b, sub, i) && i >= |a|
    ensures OccursAt(b, sub, i - |a|)
  {
    assert (a + b)[i..i + |sub|] == b[i - |a|..i - |a| + |sub|];
  }

  /** Joining pattern-free pieces with `-` gives a pattern-free text. */
  lemma {:induction false} JoinHasNoPattern(parts: seq<string>)
    requires forall k :: 0 <= k < |parts| ==> !Contains(parts[k], Pattern)
    ensures !Contains(Join(parts, "-"), Pattern)
    decreases |parts|
  {
    if |parts| > 1 {
      var p, rest := parts[0], Join(parts[1..], "-");
      JoinHasNoPattern(parts[1..]);
      var s := p + "-" + rest;
      assert Join(parts, "-") == s;
      if Contains(s, Pattern) {
        var i := IndexOf(s, Pattern).value;
        PatternAt(s, i);
        if i + 2 <= |p| {
          assert s[..|p|] == p;
          OccursBefore(s, Pattern, |p|, i);
          OccursAtContains(p, Pattern, i);
        } else if i > |p| {
          assert s == (p + "-") + rest;
          OccursPast(p + "-", rest, Pattern, i);
          OccursAtContains(rest, Pattern, i - |p + "-"|);
        }
      }
    }
  }

  lemma PatternAt(s: string, i: int)
    requires OccursAt(s, Pattern, i)
    ensures 0 <= i && i + 1 < |s| && s[i] == '\\' && s[i + 1] == 's'
  {
    assert s[i..i + 2][0] == s[i] && s[i..i + 2][1] == s[i + 1];
  }

  /** A match lying wholly within the first `n` characters is a match in that prefix. */
  lemma OccursBefore(s: string, sub: string, n: nat, i: int)
    requires OccursAt(s, sub, i) && i + |sub| <= n <= |s|
    ensures OccursAt(s[..n], sub, i)
  {
    assert s[..n][i..i + |sub|] == s[i..i + |sub|];
  }

  /** A name without a backslash has its lower-cased name as its slug: white
      space is not replaced. */
  lemma {:induction false} SlugWithoutBackslash(name: string)
    requires forall i :: 0 <= i < |name| ==> name[i] != '\\'
    ensures Slug(name) == ToLower(name)
  {
    var lower := ToLower(name);
    assert forall i :: 0 <= i < |lower| ==> lower[i] != Pattern[0];
    MissingCharNoMatch(lower, Pattern, 0);
    SplitMany(lower, Pattern);
    SplitFirst(lower, Pattern);
    assert Split(lower, Pattern) == [lower];
  }

  /** A text lacking one of the characters of `sub` does not contain `sub`. */
  lemma MissingCharNoMatch(s: string, sub: string, k: nat)
    requires k < |sub| && forall i :: 0 <= i < |s| ==> s[i] != sub[k]
    ensures !Contains(s, sub)
  {
  }

  /** "Cloud Storage" keeps its space in its slug. */
  lemma SpaceStaysInSlug(name: string)
    requires name == "Cloud Storage"
    ensures Slug(name) == "cloud storage"
  {
    SlugWithoutBackslash(name);
    assert ToLower(name) == "cloud storage";
  }

  /** So an icon file named with a hyphen, such as "cloud-storage.svg", is not
      found for "Cloud Storage". */
  lemma HyphenatedFileMissed(name: string, file: string)
    requires name == "Cloud Storage" && file == "cloud-storage.svg"
    ensures FirstMatch([file], Slug(name)).None?
  {
    SpaceStaysInSlug(name);
    var slug := Slug(name);
    assert ToLower(file) == file;
    assert slug[5] == ' ';
    MissingCharNoMatch(file, slug, 5);
    assert !Matches(file, slug);
  }
}
