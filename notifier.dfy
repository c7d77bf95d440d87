/**
 * The email notifier: the subject line, the plain-text body (the fixed no-items text, or
 * the list of new items sorted by lower-cased title), and the single send per run.
 */
module Notifier {
  import opened Wrappers
  import opened Text
  import opened Items

  const NoItemsSubject := "No new SWAP items"
  const SubjectSuffix := " new SWAP item(s) found"
  const NoItemsText := "No new SWAP items." + "\n\n" + "The watcher ran successfully."

  /** The subject `send_notification` picks for a list of new items. */
  function Subject(newItems: seq<Item>): string {
    if newItems != [] then Decimal(|newItems|) + SubjectSuffix else NoItemsSubject
  }

  /**
   * With no new items the subject is the fixed no-items line; otherwise it is the count of
   * new items in decimal followed by " new SWAP item(s) found", so the two never meet.
   */
  lemma SubjectCases(newItems: seq<Item>)
    ensures Subject(newItems) == NoItemsSubject <==> newItems == []
    ensures newItems != [] ==>
      var s := Subject(newItems);
      var n := |s| - |SubjectSuffix|;
      && 0 < n
      && s[n..] == SubjectSuffix
      && (forall i :: 0 <= i < n ==> IsDigit(s[i]))
      && DigitsValue(s[..n]) == |newItems|
  {
    if newItems != [] {
      var d := Decimal(|newItems|);
      DecimalRoundTrip(|newItems|);
      var s := Subject(newItems);
      assert s[..|d|] == d;
      assert s[0] == d[0];
      assert IsDigit(s[0]) && !IsDigit(NoItemsSubject[0]);
    }
  }

  // ---- Sorting by `item["title"].lower()` -------------------------------------------

  function TitleKey(x: Item): string {
    Lower(x.title)
  }

  /** Inserts x before the first element whose key is not below x's key. */
  function Insert(x: Item, s: seq<Item>): seq<Item>
    decreases |s|
  {
    if s == [] then [x]
    else if StrLe(TitleKey(x), TitleKey(s[0])) then [x] + s
    else [s[0]] + Insert(x, s[1..])
  }

  /** `sorted(items, key=lambda i: i["title"].lower())`, a stable sort. */
  function SortByTitle(xs: seq<Item>): seq<Item>
    decreases |xs|
  {
    if xs == [] then [] else Insert(xs[0], SortByTitle(xs[1..]))
  }

  predicate SortedByTitle(s: seq<Item>) {
    forall i, j :: 0 <= i < j < |s| ==> StrLe(TitleKey(s[i]), TitleKey(s[j]))
  }

  /** The items of s whose key is k, in the order of s. */
  function WithKey(s: seq<Item>, k: string): seq<Item>
    decreases |s|
  {
    if s == [] then [] else (if TitleKey(s[0]) == k then [s[0]] else []) + WithKey(s[1..], k)
  }

  lemma {:induction false} InsertPermutes(x: Item, s: seq<Item>)
    ensures multiset(Insert(x, s)) == multiset(s) + multiset{x}
    decreases |s|
  {
    if s != [] && !StrLe(TitleKey(x), TitleKey(s[0])) {
      InsertPermutes(x, s[1..]);
      assert s == [s[0]] + s[1..];
    }
  }

  lemma {:induction false} InsertSorted(x: Item, s: seq<Item>)
    requires SortedByTitle(s)
    ensures SortedByTitle(Insert(x, s))
    decreases |s|
  {
    if s == [] {
    } else if StrLe(TitleKey(x), TitleKey(s[0])) {
      var r := Insert(x, s);
      forall i, j | 0 <= i < j < |r| ensures StrLe(TitleKey(r[i]), TitleKey(r[j])) {
        if i == 0 && j > 1 { StrLeTransitive(TitleKey(x), TitleKey(s[0]), TitleKey(s[j - 1])); }
      }
    } else {
      StrLeTotal(TitleKey(x), TitleKey(s[0]));
      var tail := Insert(x, s[1..]);
      InsertSorted(x, s[1..]);
      InsertPermutes(x, s[1..]);
      var r := [s[0]] + tail;
      forall i, j | 0 <= i < j < |r| ensures StrLe(TitleKey(r[i]), TitleKey(r[j])) {
        if i == 0 {
          assert r[j] in multiset(tail);
          assert r[j] == x || r[j] in s[1..];
        }
      }
    }
  }

  lemma {:induction false} InsertWithKey(x: Item, s: seq<Item>, k: string)
    ensures WithKey(Insert(x, s), k) == (if TitleKey(x) == k then [x] else []) + WithKey(s, k)
    decreases |s|
  {
    if s == [] {
      assert WithKey([x], k) == (if TitleKey(x) == k then [x] else []) + WithKey([], k);
    } else if StrLe(TitleKey(x), TitleKey(s[0])) {
      assert ([x] + s)[1..] == s;
    } else {
      StrLeReflexive(TitleKey(x));
      InsertWithKey(x, s[1..], k);
      assert ([s[0]] + Insert(x, s[1..]))[1..] == Insert(x, s[1..]);
    }
  }

  /**
   * The sort returns the items in ascending order of lower-cased title, as a permutation
   * of its input, and is stable: the items sharing a key keep their input order.
   */
  lemma {:induction false} SortByTitleSpec(xs: seq<Item>)
    ensures SortedByTitle(SortByTitle(xs))
    ensures multiset(SortByTitle(xs)) == multiset(xs)
    ensures forall k :: WithKey(SortByTitle(xs), k) == WithKey(xs, k)
    decreases |xs|
  {
    if xs != [] {
      SortByTitleSpec(xs[1..]);
      InsertSorted(xs[0], SortByTitle(xs[1..]));
      InsertPermutes(xs[0], SortByTitle(xs[1..]));
      assert xs == [xs[0]] + xs[1..];
      forall k ensures WithKey(SortByTitle(xs), k) == WithKey(xs, k) {
        InsertWithKey(xs[0], SortByTitle(xs[1..]), k);
      }
    }
  }

  /** An item is among the items with key k exactly when it is in s and has key k. */
  lemma {:induction false} WithKeyMembers(s: seq<Item>, k: string, x: Item)
    ensures x in WithKey(s, k) <==> x in s && TitleKey(x) == k
    decreases |s|
  {
    if s != [] {
      WithKeyMembers(s[1..], k, x);
      assert s == [s[0]] + s[1..];
    }
  }

  /** Two sorted lists that group every key's items alike are the same list. */
  lemma {:induction false} SortedStableUnique(s: seq<Item>, t: seq<Item>)
    requires SortedByTitle(s) && SortedByTitle(t)
    requires forall k :: WithKey(s, k) == WithKey(t, k)
    ensures s == t
    decreases |s|
  {
    SameMembers(s, t);
    if s != [] && t != [] {
      SameHead(s, t);
      SameTails(s, t);
      SortedTail(s);
      SortedTail(t);
      SortedStableUnique(s[1..], t[1..]);
      assert s == [s[0]] + s[1..] && t == [t[0]] + t[1..];
    }
  }

  lemma SameMembers(s: seq<Item>, t: seq<Item>)
    requires forall k :: WithKey(s, k) == WithKey(t, k)
    ensures forall x :: x in s <==> x in t
    ensures s == [] <==> t == []
  {
    forall x ensures x in s <==> x in t {
      WithKeyMembers(s, TitleKey(x), x);
      WithKeyMembers(t, TitleKey(x), x);
    }
    if s != [] { assert s[0] in t; }
    if t != [] { assert t[0] in s; }
  }

  /** Both heads carry the least key, so they are the first item with that key. */
  lemma SameHead(s: seq<Item>, t: seq<Item>)
    requires s != [] && t != [] && SortedByTitle(s) && SortedByTitle(t)
    requires forall k :: WithKey(s, k) == WithKey(t, k)
    requires forall x :: x in s <==> x in t
    ensures s[0] == t[0]
  {
    var a, b := TitleKey(s[0]), TitleKey(t[0]);
    assert s[0] in t && t[0] in s;
    var j :| 0 <= j < |t| && t[j] == s[0];
    var i :| 0 <= i < |s| && s[i] == t[0];
    if j > 0 { assert StrLe(b, a); } else { StrLeReflexive(a); }
    if i > 0 { assert StrLe(a, b); } else { StrLeReflexive(a); }
    StrLeAntisymmetric(a, b);
    assert WithKey(s, a) == [s[0]] + WithKey(s[1..], a);
    assert WithKey(t, a) == [t[0]] + WithKey(t[1..], a);
    assert WithKey(s, a)[0] == s[0] && WithKey(t, a)[0] == t[0];
  }

  lemma SameTails(s: seq<Item>, t: seq<Item>)
    requires s != [] && t != [] && s[0] == t[0]
    requires forall k :: WithKey(s, k) == WithKey(t, k)
    ensures forall k :: WithKey(s[1..], k) == WithKey(t[1..], k)
  {
    forall k ensures WithKey(s[1..], k) == WithKey(t[1..], k) {
      var p := if TitleKey(s[0]) == k then [s[0]] else [];
      assert WithKey(s, k) == p + WithKey(s[1..], k);
      assert WithKey(t, k) == p + WithKey(t[1..], k);
      assert WithKey(s[1..], k) == WithKey(s, k)[|p|..];
      assert WithKey(t[1..], k) == WithKey(t, k)[|p|..];
    }
  }

  lemma SortedTail(s: seq<Item>)
    requires s != [] && SortedByTitle(s)
    ensures SortedByTitle(s[1..])
  {
    forall i, j | 0 <= i < j < |s[1..]| ensures StrLe(TitleKey(s[1..][i]), TitleKey(s[1..][j])) {
      assert s[1..][i] == s[i + 1] && s[1..][j] == s[j + 1];
    }
  }

  /**
   * Sortedness and stability fix the result: any sorted list that keeps every key's items
   * in input order is `SortByTitle(xs)`.
   */
  lemma SortByTitleUnique(xs: seq<Item>, t: seq<Item>)
    requires SortedByTitle(t)
    requires forall k :: WithKey(t, k) == WithKey(xs, k)
    ensures t == SortByTitle(xs)
  {
    SortByTitleSpec(xs);
    SortedStableUnique(t, SortByTitle(xs));
  }

  // ---- The plain-text body ----------------------------------------------------------

  /** `item.get("price") or "N/A"`: an absent or empty price reads "N/A". */
  function PriceText(price: Option<string>): (r: string)
    ensures r != ""
    ensures r == "N/A" <==> price.None? || price.value == "" || price.value == "N/A"
    ensures price.Some? && price.value != "" ==> r == price.value
  {
    match price
    case None => "N/A"
    case Some(p) => if p == "" then "N/A" else p
  }

  /** `item.get("image")` is truthy: present and non-empty. */
  predicate HasImage(x: Item) {
    x.image.Some? && x.image.value != ""
  }

  function TitleLine(x: Item): string {
    "- " + x.title + " (" + PriceText(x.price) + ")"
  }

  function UrlLine(x: Item): string {
    "  " + x.url
  }

  function ImageLine(x: Item): string
    requires HasImage(x)
  {
    "  Image: " + x.image.value
  }

  /** The lines one item contributes: title and price, URL, the image if any, a blank. */
  function ItemLines(x: Item): seq<string> {
    [TitleLine(x), UrlLine(x)] + (if HasImage(x) then [ImageLine(x)] else []) + [""]
  }

  /** The item lines of s, one block after another. */
  function BlockLines(s: seq<Item>): seq<string>
    decreases |s|
  {
    if s == [] then [] else ItemLines(s[0]) + BlockLines(s[1..])
  }

  function Header(n: nat): string {
    "New SWAP items (" + Decimal(n) + "):"
  }

  /** The `text_lines` of `_format_new_items_email`. */
  function NewItemsLines(newItems: seq<Item>): seq<string> {
    [Header(|newItems|), ""] + BlockLines(SortByTitle(newItems))
  }

  function NewItemsText(newItems: seq<Item>): string {
    Join(NewItemsLines(newItems), "\n")
  }

  /** The plain-text body `format_email_bodies` returns. */
  function TextBody(newItems: seq<Item>): string {
    if newItems == [] then NoItemsText else NewItemsText(newItems)
  }

  lemma {:induction false} BlockLinesSnoc(s: seq<Item>, x: Item)
    ensures BlockLines(s + [x]) == BlockLines(s) + ItemLines(x)
    decreases |s|
  {
    if s == [] {
      assert [x][1..] == [];
    } else {
      assert (s + [x])[1..] == s[1..] + [x];
      BlockLinesSnoc(s[1..], x);
    }
  }

  /** What a reader recovers from one block of item lines. */
  datatype Entry = Entry(titleLine: string, urlLine: string, imageLine: Option<string>)

  function Digest(x: Item): Entry {
    Entry(TitleLine(x), UrlLine(x), if HasImage(x) then Some(ImageLine(x)) else None)
  }

  function Digests(s: seq<Item>): seq<Entry>
    decreases |s|
  {
    if s == [] then [] else [Digest(s[0])] + Digests(s[1..])
  }

  /**
   * Reads blocks back: a title line, a URL line, then either the blank that ends the
   * block or an image line followed by that blank.
   */
  function ReadBlocks(lines: seq<string>): seq<Entry>
    decreases |lines|
  {
    if |lines| >= 3 && lines[2] == "" then
      [Entry(lines[0], lines[1], None)] + ReadBlocks(lines[3..])
    else if |lines| >= 4 && lines[3] == "" then
      [Entry(lines[0], lines[1], Some(lines[2]))] + ReadBlocks(lines[4..])
    else []
  }

  /**
   * The item lines are unambiguous: reading them back yields, item by item and in order,
   * its title-and-price line, its URL line, and an image line exactly when it has an image.
   */
  lemma {:induction false} ReadBlockLines(s: seq<Item>)
    ensures ReadBlocks(BlockLines(s)) == Digests(s)
    decreases |s|
  {
    if s != [] {
      var x, rest := s[0], BlockLines(s[1..]);
      var lines := ItemLines(x) + rest;
      ReadBlockLines(s[1..]);
      if HasImage(x) {
        assert lines[2] == ImageLine(x) != "";
        assert lines[3] == "";
        assert lines[4..] == rest;
      } else {
        assert lines[2] == "";
        assert lines[3..] == rest;
      }
    }
  }

  lemma SortedLength(xs: seq<Item>)
    ensures |SortByTitle(xs)| == |xs|
  {
    SortByTitleSpec(xs);
    assert |multiset(SortByTitle(xs))| == |multiset(xs)|;
  }

  /**
   * A non-empty list's lines are the header counting the new items and a blank line,
   * then the items' blocks in ascending order of lower-cased title, each read back as its
   * title-and-price line, URL line and optional image line.
   */
  lemma NewItemsLayout(newItems: seq<Item>)
    requires newItems != []
    ensures var lines := NewItemsLines(newItems);
      && |lines| >= 5
      && lines[0] == Header(|newItems|) && lines[1] == ""
      && ReadBlocks(lines[2..]) == Digests(SortByTitle(newItems))
  {
    var sorted := SortByTitle(newItems);
    SortedLength(newItems);
    var lines := NewItemsLines(newItems);
    assert lines[2..] == BlockLines(sorted);
    ReadBlockLines(sorted);
    assert |BlockLines(sorted)| >= 3;
  }

  /** A non-empty body opens with the header line and a blank line. */
  lemma NewItemsTextOpening(newItems: seq<Item>)
    requires newItems != []
    ensures NewItemsText(newItems) == Header(|newItems|) + "\n\n" + Join(BlockLines(SortByTitle(newItems)), "\n")
  {
    var sorted := SortByTitle(newItems);
    SortedLength(newItems);
    var lines := NewItemsLines(newItems);
    var blocks := BlockLines(sorted);
    assert |blocks| >= 3;
    JoinHeadingBlank(Header(|newItems|), blocks);
  }

  /** The empty list, and only it, gets the fixed no-items body. */
  lemma TextBodyCases(newItems: seq<Item>)
    ensures TextBody(newItems) == NoItemsText <==> newItems == []
  {
    if newItems != [] {
      NewItemsTextOpening(newItems);
      var t := TextBody(newItems);
      var h := Header(|newItems|);
      assert t[..|h|] == h;
      assert t[1] == h[1] == 'e';
    }
  }

  /** `_format_new_items_email`'s plain-text part: the header, then a block per sorted item. */
  method FormatNewItemsEmail(newItems: seq<Item>) returns (text: string)
    ensures text == NewItemsText(newItems)
  {
    var lines := [Header(|newItems|), ""];
    var sorted := SortByTitle(newItems);
    for i := 0 to |sorted|
      invariant lines == [Header(|newItems|), ""] + BlockLines(sorted[..i])
    {
      var item := sorted[i];
      var price := PriceText(item.price);
      lines := lines + ["- " + item.title + " (" + price + ")"];
      lines := lines + ["  " + item.url];
      if HasImage(item) {
        lines := lines + ["  Image: " + item.image.value];
      }
      lines := lines + [""];
      assert sorted[..i + 1] == sorted[..i] + [item];
      BlockLinesSnoc(sorted[..i], item);
    }
    assert sorted[..|sorted|] == sorted;
    text := Join(lines, "\n");
  }

  /** `format_email_bodies`' plain-text part. */
  method FormatEmailBodies(newItems: seq<Item>) returns (text: string)
    ensures text == TextBody(newItems)
  {
    if newItems == [] {
      text := NoItemsText;
    } else {
      text := FormatNewItemsEmail(newItems);
    }
  }

  /** An email as handed to the SMTP client: its subject and plain-text part. */
  datatype Message = Message(subject: string, textBody: string)

  /** The notification for a list of new items. */
  function Notification(newItems: seq<Item>): Message {
    Message(Subject(newItems), TextBody(newItems))
  }

  /** The SMTP side of `send_email`: every attempt is logged; a reachable server delivers. */
  class Outbox {
    const reachable: bool
    /** Every message handed to `send_email`, delivered or not. */
    var attempted: seq<Message>
    /** The messages the server accepted. */
    var delivered: seq<Message>

    constructor (reachable: bool)
      ensures this.reachable == reachable && attempted == [] && delivered == []
    {
      this.reachable := reachable;
      attempted := [];
      delivered := [];
    }

    /** `send_email`: returns false where the source raises. */
    method SendEmail(m: Message) returns (sent: bool)
      modifies this
      ensures attempted == old(attempted) + [m]
      ensures sent == reachable
      ensures delivered == old(delivered) + (if sent then [m] else [])
    {
      attempted := attempted + [m];
      sent := reachable;
      if sent {
        delivered := delivered + [m];
      }
    }
  }

  /**
   * `send_notification`: picks the subject, formats the body and calls `send_email` once,
   * with or without new items; a failed send is reported to the caller.
   */
  method SendNotification(outbox: Outbox, newItems: seq<Item>, totalItems: nat) returns (sent: bool)
    modifies outbox
    ensures outbox.attempted == old(outbox.attempted) + [Notification(newItems)]
    ensures sent == outbox.reachable
    ensures outbox.delivered == old(outbox.delivered) + (if sent then [Notification(newItems)] else [])
  {
    var subject := Subject(newItems);
    var text := FormatEmailBodies(newItems);
    sent := outbox.SendEmail(Message(subject, text));
  }
}
