/**
 * The catalog scraper (scraper.ts): turns the lines of a plain-text product
 * catalog into records. A non-indented, non-blank line names the current
 * category; a line indented by three spaces whose trimmed text has a
 * two-space gap is a product: its name, then its description.
 */
module Scraper {
  import opened Collections
  import opened Text
  import opened Wrappers

  datatype CatalogEntry = CatalogEntry(id: string, name: string, category: string, description: string, url: string)

  const Indent: string := "   "
  const ColumnGap: string := "  "

  /** `name.toLowerCase().replace(/\s/g, '-')`. */
  function IdOf(name: string): (id: string)
    ensures |id| == |name|
    ensures forall i :: 0 <= i < |id| ==> !IsSpace(id[i])
    ensures forall i :: 0 <= i < |id| ==> id[i] == if IsSpace(name[i]) then '-' else LowerChar(name[i])
  {
    var lower := ToLower(name);
    seq(|lower|, i requires 0 <= i < |lower| => if IsSpace(lower[i]) then '-' else lower[i])
  }

  function Columns(line: string): seq<string> {
    Split(Trim(line), ColumnGap)
  }

  /** A product line: indented, with at least two columns. */
  predicate IsItemLine(line: string) {
    StartsWith(line, Indent) && |Columns(line)| > 1
  }

  /** A category line: not indented and not blank. */
  predicate IsHeading(line: string) {
    !StartsWith(line, Indent) && |Trim(line)| > 0
  }

  /** The record of a product line under `category`. */
  function EntryOf(line: string, category: string): (e: CatalogEntry)
    requires IsItemLine(line)
    ensures e.name == Columns(line)[0] && e.name != []
    ensures e.id == IdOf(e.name)
    ensures e.category == category && e.url == ""
    ensures e.description == Trim(Join(Columns(line)[1..], " "))
  {
    var parts := Columns(line);
    assert parts[0] != [] by {
      var t := Trim(line);
      if parts[0] == [] {
        SplitFirst(t, ColumnGap);
      }
    }
    CatalogEntry(IdOf(parts[0]), parts[0], category, Trim(Join(parts[1..], " ")), "")
  }

  /** The index of the last heading among `lines`, if any. */
  function LastHeading(lines: seq<string>): (r: Option<nat>)
    ensures r.None? ==> forall j :: 0 <= j < |lines| ==> !IsHeading(lines[j])
    ensures r.Some? ==> r.value < |lines| && IsHeading(lines[r.value])
    ensures r.Some? ==> forall k :: r.value < k < |lines| ==> !IsHeading(lines[k])
  {
    LastWhere(lines, IsHeading)
  }

  /** The category in force after `lines`: the trimmed last heading, or "". */
  function CategoryAfter(lines: seq<string>): (c: string)
    ensures c == [] <==> LastHeading(lines).None?
    ensures c == [] || (!IsSpace(c[0]) && !IsSpace(c[|c| - 1]))
  {
    match LastHeading(lines)
    case None => ""
    case Some(j) => Trim(lines[j])
  }

  /** The records of `lines`, in line order. */
  function Entries(lines: seq<string>): (r: seq<CatalogEntry>)
    ensures |r| <= |lines|
    ensures forall i :: 0 <= i < |r| ==> r[i].name != [] && r[i].url == "" && r[i].id == IdOf(r[i].name)
  {
    if lines == [] then []
    else
      var init, last := lines[..|lines| - 1], lines[|lines| - 1];
      Entries(init) + (if IsItemLine(last) then [EntryOf(last, CategoryAfter(init))] else [])
  }

  /** A heading sets the category; any other line leaves it as it was. */
  lemma CategorySnoc(init: seq<string>, line: string)
    ensures CategoryAfter(init + [line]) == if IsHeading(line) then Trim(line) else CategoryAfter(init)
  {
    assert (init + [line])[..|init|] == init;
  }

  /** A product line adds its record at the end; any other line adds none. */
  lemma EntriesSnoc(init: seq<string>, line: string)
    ensures Entries(init + [line])
      == Entries(init) + (if IsItemLine(line) then [EntryOf(line, CategoryAfter(init))] else [])
  {
    var lines := init + [line];
    assert lines[..|lines| - 1] == init && lines[|lines| - 1] == line;
  }

  /** An indented line never changes the category. */
  lemma IndentedKeepsCategory(lines: seq<string>, line: string)
    requires StartsWith(line, Indent)
    ensures CategoryAfter(lines + [line]) == CategoryAfter(lines)
  {
    assert (lines + [line])[..|lines|] == lines;
  }

  /** One record per product line. */
  lemma {:induction false} EntriesCount(lines: seq<string>)
    ensures |Entries(lines)| == |Filter(lines, IsItemLine)|
  {
    if lines != [] {
      var init, last := lines[..|lines| - 1], lines[|lines| - 1];
      EntriesCount(init);
      assert lines == init + [last];
      FilterAppend(init, [last], IsItemLine);
      assert [last][1..] == [];
    }
  }

  /** Records of earlier lines come first: the records of a prefix of the lines
      are a prefix of the records. */
  lemma {:induction false} EntriesPrefix(lines: seq<string>, n: nat)
    requires n <= |lines|
    ensures |Entries(lines[..n])| <= |Entries(lines)|
    ensures Entries(lines[..n]) == Entries(lines)[..|Entries(lines[..n])|]
    decreases |lines|
  {
    if n < |lines| {
      var init := lines[..|lines| - 1];
      assert init[..n] == lines[..n];
      EntriesPrefix(init, n);
    } else {
      assert lines[..n] == lines;
    }
  }

  /** Each product line's record, under the category in force at that line,
      comes right after the records of the lines before it. */
  lemma EntriesAt(lines: seq<string>, j: nat)
    requires j < |lines| && IsItemLine(lines[j])
    ensures |Entries(lines[..j])| < |Entries(lines)|
    ensures Entries(lines)[|Entries(lines[..j])|] == EntryOf(lines[j], CategoryAfter(lines[..j]))
  {
    var before, upto := lines[..j], lines[..j + 1];
    EntriesPrefix(lines, j + 1);
    assert upto == before + [lines[j]];
    EntriesSnoc(before, lines[j]);
    var n := |Entries(before)|;
    assert Entries(upto) == Entries(before) + [EntryOf(lines[j], CategoryAfter(before))];
    assert Entries(lines)[n] == Entries(upto)[n];
  }

  /** The script's loop over `content.split('\n')`. */
  method Scrape(content: string) returns (products: seq<CatalogEntry>)
    ensures products == Entries(Split(content, "\n"))
  {
    var lines := Split(content, "\n");
    products := [];
    var currentCategory := "";
    for i := 0 to |lines|
      invariant products == Entries(lines[..i])
      invariant currentCategory == CategoryAfter(lines[..i])
    {
      var line := lines[i];
      assert lines[..i + 1] == lines[..i] + [line];
      EntriesSnoc(lines[..i], line);
      CategorySnoc(lines[..i], line);
      if StartsWith(line, Indent) {
        var parts := Split(Trim(line), ColumnGap);
        if |parts| > 1 {
          var name := parts[0];
          var description := Trim(Join(parts[1..], " "));
          assert CatalogEntry(IdOf(name), name, currentCategory, description, "") == EntryOf(line, currentCategory);
          products := products + [CatalogEntry(IdOf(name), name, currentCategory, description, "")];
        }
      } else if |Trim(line)| > 0 {
        currentCategory := Trim(line);
      }
    }
    assert lines[..|lines|] == lines;
  }
}
