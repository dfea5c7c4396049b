/**
 * The release-notes feed grouper (rss_parser.ts): keeps the feed entries
 * whose content carries a product-title heading and groups them by that
 * title, preserving feed order, in a dictionary whose keys keep their order
 * of first insertion.
 */
module RssParser {
  import opened Wrappers
  import opened Collections
  import opened Text

  datatype Entry = Entry(title: string, updated: string, content: string)
  datatype Note = Note(date: string, title: string, content: string)

  const OpenTag: string := "<h2 class=\"release-note-product-title\">"
  const CloseTag: string := "</h2>"

  /** The literal text around the group of a pattern `open(.*?)close`. */
  datatype Tags = Tags(open: string, close: string)

  /** The script's pattern: `<h2 class="release-note-product-title">(.*?)</h2>`. */
  const TitleTags: Tags := Tags(OpenTag, CloseTag)

  /** No line terminator in `s[a..b]`: the regular expression's `.` covers it. */
  predicate NoTerminator(s: string, a: nat, b: nat) {
    b <= |s| && forall i :: a <= i < b ==> !IsLineTerminator(s[i])
  }

  /** The pattern `open(.*?)close` matches at `i`. */
  ghost predicate MatchesAt(s: string, t: Tags, i: nat) {
    OccursAt(s, t.open, i)
    && exists e :: i + |t.open| <= e && OccursAt(s, t.close, e) && NoTerminator(s, i + |t.open|, e)
  }

  /** Where the lazy group opened at `from` ends: the first `close` at or after `k`,
      provided no line terminator comes first. */
  function GroupEnd(s: string, t: Tags, from: nat, k: nat): (r: Option<nat>)
    ensures r.Some? ==> k <= r.value && r.value + |t.close| <= |s|
    decreases |s| - k
  {
    if OccursAt(s, t.close, k) then Some(k)
    else if k >= |s| || IsLineTerminator(s[k]) then None
    else GroupEnd(s, t, from, k + 1)
  }

  /** The group ends at the nearest `close`, with no line terminator before it;
      it fails only when every `close` lies past a line terminator. */
  lemma {:induction false} GroupEndSpec(s: string, t: Tags, from: nat, k: nat)
    requires from <= k <= |s| && NoTerminator(s, from, k)
    requires forall e :: from <= e < k ==> !OccursAt(s, t.close, e)
    ensures GroupEnd(s, t, from, k).Some? ==>
      OccursAt(s, t.close, GroupEnd(s, t, from, k).value) && NoTerminator(s, from, GroupEnd(s, t, from, k).value)
    ensures GroupEnd(s, t, from, k).Some? ==>
      forall e :: from <= e < GroupEnd(s, t, from, k).value ==> !OccursAt(s, t.close, e)
    ensures GroupEnd(s, t, from, k).None? ==>
      forall e :: from <= e && OccursAt(s, t.close, e) ==> !NoTerminator(s, from, e)
    decreases |s| - k
  {
    if !OccursAt(s, t.close, k) && k < |s| && !IsLineTerminator(s[k]) {
      GroupEndSpec(s, t, from, k + 1);
    }
  }

  /** The captured group of the leftmost match, as the half-open range `[start, end)`. */
  datatype Span = Span(start: nat, end: nat)

  /** `s.match(/open(.*?)close/)`, searching from index `i`. */
  function FindTitleFrom(s: string, t: Tags, i: nat): (r: Option<Span>)
    ensures r.Some? ==> i + |t.open| <= r.value.start <= r.value.end <= |s|
    decreases |s| - i
  {
    if i + |t.open| > |s| then None
    else
      var from := i + |t.open|;
      var end := if OccursAt(s, t.open, i) then GroupEnd(s, t, from, from) else None;
      if end.Some? then Some(Span(from, end.value))
      else FindTitleFrom(s, t, i + 1)
  }

  /** No match starts where the opening tag no longer fits. */
  lemma NoMatchPastEnd(s: string, t: Tags, i: nat)
    requires i + |t.open| > |s|
    ensures forall j :: i <= j ==> !MatchesAt(s, t, j)
  {
    forall j | i <= j ensures !MatchesAt(s, t, j) {
      assert !OccursAt(s, t.open, j);
    }
  }

  /** Where the opening tag is missing, or no `close` follows it on its line,
      the pattern does not match. */
  lemma NoMatchAt(s: string, t: Tags, i: nat)
    requires i + |t.open| <= |s|
    requires !OccursAt(s, t.open, i) || GroupEnd(s, t, i + |t.open|, i + |t.open|).None?
    ensures !MatchesAt(s, t, i)
  {
    if OccursAt(s, t.open, i) {
      GroupEndSpec(s, t, i + |t.open|, i + |t.open|);
    }
  }

  /** The search finds the leftmost position where the pattern matches. */
  lemma {:induction false} FindTitleNone(s: string, t: Tags, i: nat)
    ensures FindTitleFrom(s, t, i).None? ==> forall j :: i <= j ==> !MatchesAt(s, t, j)
    decreases |s| - i
  {
    if i + |t.open| > |s| {
      NoMatchPastEnd(s, t, i);
    } else {
      var from := i + |t.open|;
      var end := if OccursAt(s, t.open, i) then GroupEnd(s, t, from, from) else None;
      if end.None? {
        FindTitleNone(s, t, i + 1);
        NoMatchAt(s, t, i);
      }
    }
  }

  lemma MatchesWith(s: string, t: Tags, i: nat, e: nat)
    requires OccursAt(s, t.open, i) && i + |t.open| <= e
    requires OccursAt(s, t.close, e) && NoTerminator(s, i + |t.open|, e)
    ensures MatchesAt(s, t, i)
  {
  }

  /** A successful search found the opening tag just before the span, and the
      group it opened closes where the span ends. */
  lemma {:induction false} FindTitleGroup(s: string, t: Tags, i: nat)
    requires FindTitleFrom(s, t, i).Some?
    ensures FindTitleFrom(s, t, i).value.start >= |t.open|
    ensures OccursAt(s, t.open, FindTitleFrom(s, t, i).value.start - |t.open|)
    ensures GroupEnd(s, t, FindTitleFrom(s, t, i).value.start, FindTitleFrom(s, t, i).value.start)
      == Some(FindTitleFrom(s, t, i).value.end)
    decreases |s| - i
  {
    var from := i + |t.open|;
    var end := if OccursAt(s, t.open, i) then GroupEnd(s, t, from, from) else None;
    if end.None? {
      assert FindTitleFrom(s, t, i) == FindTitleFrom(s, t, i + 1);
      FindTitleGroup(s, t, i + 1);
    }
  }

  /** When the search succeeds, the opening tag sits just before the span and
      the group ends at the nearest `close`, with no line terminator before it. */
  lemma FindTitleSome(s: string, t: Tags, i: nat)
    requires FindTitleFrom(s, t, i).Some?
    ensures OccursAt(s, t.open, FindTitleFrom(s, t, i).value.start - |t.open|)
    ensures OccursAt(s, t.close, FindTitleFrom(s, t, i).value.end)
    ensures NoTerminator(s, FindTitleFrom(s, t, i).value.start, FindTitleFrom(s, t, i).value.end)
    ensures forall e :: FindTitleFrom(s, t, i).value.start <= e < FindTitleFrom(s, t, i).value.end ==>
      !OccursAt(s, t.close, e)
  {
    var sp := FindTitleFrom(s, t, i).value;
    FindTitleGroup(s, t, i);
    GroupEndSpec(s, t, sp.start, sp.start);
  }

  /** ... and the pattern matches nowhere before that opening tag. */
  lemma {:induction false} FindTitleLeftmost(s: string, t: Tags, i: nat, sp: Span)
    requires FindTitleFrom(s, t, i) == Some(sp)
    ensures forall j :: i <= j < sp.start - |t.open| ==> !MatchesAt(s, t, j)
    decreases |s| - i
  {
    var from := i + |t.open|;
    var end := if OccursAt(s, t.open, i) then GroupEnd(s, t, from, from) else None;
    if end.None? {
      NoMatchAt(s, t, i);
      assert FindTitleFrom(s, t, i + 1) == Some(sp);
      FindTitleLeftmost(s, t, i + 1, sp);
    }
  }

  /** `content.match(...)?.[1]`: the product title of an entry, if it has one. */
  function ProductName(content: string): Option<string> {
    match FindTitleFrom(content, TitleTags, 0)
    case None => None
    case Some(sp) => Some(content[sp.start..sp.end])
  }

  /** Three pieces found one after another in `s` form one occurrence. */
  lemma OccursConcat(s: string, a: string, b: string, c: string, i: nat)
    requires OccursAt(s, a, i) && OccursAt(s, b, i + |a|) && OccursAt(s, c, i + |a| + |b|)
    ensures OccursAt(s, a + b + c, i)
  {
    assert s[i..i + |a + b + c|] == s[i..i + |a|] + s[i + |a|..i + |a| + |b|] + s[i + |a| + |b|..i + |a| + |b| + |c|];
  }

  /** An entry has a title exactly when the pattern matches somewhere in its content. */
  lemma ProductNameFound(content: string)
    ensures ProductName(content).None? <==> forall j :: !MatchesAt(content, TitleTags, j)
  {
    FindTitleNone(content, TitleTags, 0);
    if FindTitleFrom(content, TitleTags, 0).Some? {
      var sp := FindTitleFrom(content, TitleTags, 0).value;
      FindTitleSome(content, TitleTags, 0);
      MatchesWith(content, TitleTags, sp.start - |OpenTag|, sp.end);
    }
  }

  /** The title holds no line terminator: the group's `.` does not cross a line. */
  lemma ProductNameOneLine(content: string)
    requires ProductName(content).Some?
    ensures forall i :: 0 <= i < |ProductName(content).value| ==> !IsLineTerminator(ProductName(content).value[i])
  {
    var sp := FindTitleFrom(content, TitleTags, 0).value;
    FindTitleSome(content, TitleTags, 0);
    SliceNoTerminator(content, sp.start, sp.end);
  }

  lemma SliceNoTerminator(s: string, a: nat, b: nat)
    requires a <= b && NoTerminator(s, a, b)
    ensures forall i :: 0 <= i < |s[a..b]| ==> !IsLineTerminator(s[a..b][i])
  {
    forall i | 0 <= i < |s[a..b]| ensures !IsLineTerminator(s[a..b][i]) {
      assert s[a..b][i] == s[a + i];
    }
  }

  /** The title sits between the two tags. */
  lemma ProductNameBetweenTags(content: string)
    requires ProductName(content).Some?
    ensures Contains(content, OpenTag + ProductName(content).value + CloseTag)
  {
    var sp := FindTitleFrom(content, TitleTags, 0).value;
    FindTitleSome(content, TitleTags, 0);
    ProductNameAt(content, sp);
    OccursAtContains(content, OpenTag + ProductName(content).value + CloseTag, sp.start - |OpenTag|);
  }

  lemma OccursInSlice(s: string, a: nat, b: nat, sub: string, k: nat)
    requires a <= b <= |s| && OccursAt(s[a..b], sub, k)
    ensures OccursAt(s, sub, a + k) && a + k + |sub| <= b
  {
    assert s[a..b] == s[..b][a..];
    OccursInSuffix(s[..b], sub, a, k);
    OccursInPrefix(s, sub, b, a + k);
  }

  /** The lazy group stops at the first `</h2>`, so the title holds none. */
  lemma ProductNameLazy(content: string)
    requires ProductName(content).Some?
    ensures !Contains(ProductName(content).value, CloseTag)
  {
    var sp := FindTitleFrom(content, TitleTags, 0).value;
    var t := content[sp.start..sp.end];
    FindTitleSome(content, TitleTags, 0);
    if Contains(t, CloseTag) {
      var k := IndexOf(t, CloseTag).value;
      OccursInSlice(content, sp.start, sp.end, CloseTag, k);
    }
  }

  /** The title is the group of the leftmost match of the pattern. */
  lemma ProductNameLeftmost(content: string)
    requires ProductName(content).Some?
    ensures exists at: nat :: (MatchesAt(content, TitleTags, at)
      && OccursAt(content, OpenTag + ProductName(content).value + CloseTag, at)
      && forall j :: 0 <= j < at ==> !MatchesAt(content, TitleTags, j))
  {
    var sp := FindTitleFrom(content, TitleTags, 0).value;
    var at := sp.start - |OpenTag|;
    FindTitleSome(content, TitleTags, 0);
    MatchesWith(content, TitleTags, at, sp.end);
    ProductNameAt(content, sp);
    FindTitleLeftmost(content, TitleTags, 0, sp);
    assert forall j :: 0 <= j < at ==> !MatchesAt(content, TitleTags, j);
  }

  lemma ProductNameAt(content: string, sp: Span)
    requires FindTitleFrom(content, TitleTags, 0) == Some(sp)
    requires OccursAt(content, OpenTag, sp.start - |OpenTag|) && OccursAt(content, CloseTag, sp.end)
    ensures OccursAt(content, OpenTag + ProductName(content).value + CloseTag, sp.start - |OpenTag|)
  {
    var t := content[sp.start..sp.end];
    assert OccursAt(content, t, sp.start);
    OccursConcat(content, OpenTag, t, CloseTag, sp.start - |OpenTag|);
  }

  predicate Recorded(e: Entry) {
    ProductName(e.content).Some?
  }

  function NoteOf(e: Entry): Note {
    Note(e.updated, e.title, e.content)
  }

  function HasTitle(name: string): Entry -> bool {
    (e: Entry) => ProductName(e.content) == Some(name)
  }

  /** The notes recorded under `name`, in feed order. */
  function NotesFor(entries: seq<Entry>, name: string): seq<Note> {
    if entries == [] then []
    else
      var init, last := entries[..|entries| - 1], entries[|entries| - 1];
      NotesFor(init, name) + (if ProductName(last.content) == Some(name) then [NoteOf(last)] else [])
  }

  /**
   * A title's group holds one note per entry carrying that title
   * (`Collections.FilterLengthIsCount` equates the count with the length of
   * `entries.filter(HasTitle(name))`).
   */
  lemma {:induction false} NotesForCount(entries: seq<Entry>, name: string)
    ensures |NotesFor(entries, name)| == CountWhere(entries, HasTitle(name))
  {
    if entries != [] {
      NotesForCount(entries[..|entries| - 1], name);
    }
  }

  /** One more entry adds its note to its own title's group and to no other. */
  lemma NotesForSnoc(init: seq<Entry>, last: Entry, k: string)
    ensures NotesFor(init + [last], k)
      == NotesFor(init, k) + (if ProductName(last.content) == Some(k) then [NoteOf(last)] else [])
  {
    var entries := init + [last];
    assert entries[..|entries| - 1] == init && entries[|entries| - 1] == last;
  }

  /** The product titles of the recorded entries, each once, in order of first appearance. */
  function Names(entries: seq<Entry>): (r: seq<string>)
    ensures NoDuplicates(r)
  {
    if entries == [] then []
    else
      var r0 := Names(entries[..|entries| - 1]);
      match ProductName(entries[|entries| - 1].content)
      case Some(k) => if k in r0 then r0 else r0 + [k]
      case None => r0
  }

  /** A title is listed exactly when some entry carries it. */
  lemma NamesMembers(entries: seq<Entry>)
    ensures forall k :: k in Names(entries) <==> exists i :: 0 <= i < |entries| && ProductName(entries[i].content) == Some(k)
  {
    forall k ensures k in Names(entries) <==> exists i :: 0 <= i < |entries| && ProductName(entries[i].content) == Some(k) {
      NamesMember(entries, k);
    }
  }

  /** The membership fact of NamesMembers for one title. */
  lemma {:induction false} NamesMember(entries: seq<Entry>, k: string)
    ensures k in Names(entries) <==> exists i :: 0 <= i < |entries| && ProductName(entries[i].content) == Some(k)
  {
    if entries != [] {
      var init, last := entries[..|entries| - 1], entries[|entries| - 1];
      NamesMember(init, k);
      assert entries == init + [last];
      NamesSnoc(init, last);
      if k in Names(init) {
        var i :| 0 <= i < |init| && ProductName(init[i].content) == Some(k);
        assert entries[i] == init[i];
      }
      if exists i :: 0 <= i < |entries| && ProductName(entries[i].content) == Some(k) {
        var i :| 0 <= i < |entries| && ProductName(entries[i].content) == Some(k);
        if i < |init| {
          assert init[i] == entries[i];
        }
      }
    }
  }

  /** One more entry adds its title to the end of the list, unless it has none
      or the title is already there. */
  lemma NamesSnoc(init: seq<Entry>, last: Entry)
    ensures Names(init + [last]) == match ProductName(last.content)
      case Some(k) => if k in Names(init) then Names(init) else Names(init) + [k]
      case None => Names(init)
  {
    var entries := init + [last];
    assert entries[..|entries| - 1] == init && entries[|entries| - 1] == last;
  }

  /** A title that no entry carries has no notes. */
  lemma {:induction false} NotesForAbsent(entries: seq<Entry>, k: string)
    requires forall i :: 0 <= i < |entries| ==> ProductName(entries[i].content) != Some(k)
    ensures NotesFor(entries, k) == []
  {
    if entries != [] {
      var init := entries[..|entries| - 1];
      assert forall i :: 0 <= i < |init| ==> init[i] == entries[i];
      NotesForAbsent(init, k);
    }
  }

  /** A title not yet listed has no notes. */
  lemma {:induction false} UnlistedHasNoNotes(entries: seq<Entry>, k: string)
    requires k !in Names(entries)
    ensures NotesFor(entries, k) == []
  {
    if entries != [] {
      var init, last := entries[..|entries| - 1], entries[|entries| - 1];
      assert entries == init + [last];
      NamesSnoc(init, last);
      UnlistedHasNoNotes(init, k);
    }
  }

  /** Filing one more entry, as the loop body does, keeps the dictionary and its
      key order equal to the groups and names of the entries seen so far. */
  lemma FileStep(done: seq<Entry>, entry: Entry, notes0: map<string, seq<Note>>, order0: seq<string>,
                 notes: map<string, seq<Note>>, order: seq<string>)
    requires order0 == Names(done)
    requires forall k :: k in notes0 <==> k in order0
    requires forall k :: k in notes0 ==> notes0[k] == NotesFor(done, k)
    requires ProductName(entry.content).None? ==> notes == notes0 && order == order0
    requires ProductName(entry.content).Some? ==>
      var name := ProductName(entry.content).value;
      && order == (if name in notes0 then order0 else order0 + [name])
      && notes == notes0[name := (if name in notes0 then notes0[name] else []) + [NoteOf(entry)]]
    ensures order == Names(done + [entry])
    ensures forall k :: k in notes <==> k in order
    ensures forall k :: k in notes ==> notes[k] == NotesFor(done + [entry], k)
  {
    NamesSnoc(done, entry);
    var title := ProductName(entry.content);
    if title.Some? && title.value !in notes0 {
      UnlistedHasNoNotes(done, title.value);
    }
    forall k | k in notes ensures notes[k] == NotesFor(done + [entry], k) {
      NotesForSnoc(done, entry, k);
    }
  }

  /** The script's loop over the feed's entries. */
  method Group(entries: seq<Entry>) returns (notes: map<string, seq<Note>>, order: seq<string>)
    ensures order == Names(entries)
    ensures forall k :: k in notes <==> k in order
    ensures forall k :: k in notes ==> notes[k] == NotesFor(entries, k)
  {
    notes, order := map[], [];
    for i := 0 to |entries|
      invariant order == Names(entries[..i])
      invariant forall k :: k in notes <==> k in order
      invariant forall k :: k in notes ==> notes[k] == NotesFor(entries[..i], k)
    {
      var entry := entries[i];
      ghost var done, notes0, order0 := entries[..i], notes, order;
      assert entries[..i + 1] == done + [entry];
      var productMatch := ProductName(entry.content);
      if productMatch.Some? {
        var productName := productMatch.value;
        if productName !in notes {
          notes := notes[productName := []];
          order := order + [productName];
        }
        notes := notes[productName := notes[productName] + [NoteOf(entry)]];
      }
      FileStep(done, entry, notes0, order0, notes, order);
    }
    assert entries[..|entries|] == entries;
  }

  /** The number of notes filed under the titles in `keys`. */
  function NotesUnder(entries: seq<Entry>, keys: seq<string>): nat {
    if keys == [] then 0 else |NotesFor(entries, keys[0])| + NotesUnder(entries, keys[1..])
  }

  lemma {:induction false} NotesUnderStep(init: seq<Entry>, last: Entry, keys: seq<string>)
    requires NoDuplicates(keys)
    ensures NotesUnder(init + [last], keys) == NotesUnder(init, keys)
      + (if ProductName(last.content).Some? && ProductName(last.content).value in keys then 1 else 0)
  {
    var entries := init + [last];
    assert entries[..|entries| - 1] == init && entries[|entries| - 1] == last;
    if keys != [] {
      NotesUnderStep(init, last, keys[1..]);
      assert forall x :: x in keys[1..] ==> x != keys[0];
    }
  }

  /** Every recorded entry lands in exactly one group: the groups together hold
      as many notes as there are recorded entries. */
  lemma {:induction false} GroupsPartitionRecorded(entries: seq<Entry>, keys: seq<string>)
    requires NoDuplicates(keys)
    requires forall i :: 0 <= i < |entries| && Recorded(entries[i]) ==> ProductName(entries[i].content).value in keys
    ensures NotesUnder(entries, keys) == |Filter(entries, Recorded)|
  {
    if entries == [] {
      if keys != [] {
        GroupsPartitionRecorded(entries, keys[1..]);
      }
    } else {
      var init, last := entries[..|entries| - 1], entries[|entries| - 1];
      assert entries == init + [last];
      GroupsPartitionRecorded(init, keys);
      NotesUnderStep(init, last, keys);
      FilterAppend(init, [last], Recorded);
      assert [last][1..] == [];
    }
  }

  /** The dictionary `Group` builds holds exactly one note per recorded entry. */
  lemma GroupTotal(entries: seq<Entry>)
    ensures NotesUnder(entries, Names(entries)) == |Filter(entries, Recorded)|
  {
    NamesMembers(entries);
    GroupsPartitionRecorded(entries, Names(entries));
  }
}
