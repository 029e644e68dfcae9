/** `readAddressesFromFile` and the TXT writer that the batch analyzer uses to
    rewrite a list: dispatch on the file's extension, the header rule and the
    whitespace line format, and the round trip between writer and reader. The
    file's bytes and the JSON decoder are inputs. */
module AddressFile {
  import opened Base
  import opened Text

  datatype ReadError = ReadFailed | JsonInvalid | UnsupportedFormat(ext: string)

  const JsonExt: string := ".json"
  const TxtExt: string := ".txt"

  /** The header line the writer emits, and the mark that identifies a header. */
  const Header: string := "address  label"
  const HeaderMark: string := "  "

  // ---------------------------------------------------------------------------
  // Reading
  // ---------------------------------------------------------------------------

  /** The lines that carry data: the first line is dropped when it contains two
      consecutive spaces. */
  function DataLines(lines: seq<string>): seq<string> {
    if lines != [] && Contains(lines[0], HeaderMark) then lines[1..] else lines
  }

  /** One line: its first field is the address, the remaining fields joined by
      single spaces are the label; a line with fewer than two fields is ignored. */
  function LineItems(line: string): (items: seq<AddressItem>)
    ensures |items| <= 1
  {
    var f := Fields(line);
    if |f| >= 2 then [AddressItem(f[0], Join(f[1..], " "))] else []
  }

  /** The items of a sequence of lines, in line order. */
  function ParseLines(lines: seq<string>): seq<AddressItem> {
    if lines == [] then []
    else ParseLines(lines[..|lines| - 1]) + LineItems(lines[|lines| - 1])
  }

  /** The items of a TXT file's text. */
  function ParseTxt(content: string): seq<AddressItem> {
    ParseLines(DataLines(Lines(content)))
  }

  /** What reading a file yields: `content` is the result of reading its bytes
      (None when that fails) and `decodeJson` stands for `json.Unmarshal`. */
  function ReadResult(path: string, content: Option<string>, decodeJson: string -> Option<seq<AddressItem>>)
    : Outcome<seq<AddressItem>, ReadError>
  {
    match content
    case None => Err(ReadFailed)
    case Some(text) =>
      var ext := Ext(path);
      if ext == JsonExt then
        match decodeJson(text)
        case None => Err(JsonInvalid)
        case Some(items) => Ok(items)
      else if ext == TxtExt then Ok(ParseTxt(text))
      else Err(UnsupportedFormat(ext))
  }

  /** The reader: dispatch on the extension; TXT text goes to `ScanTxt`. */
  method ReadAddressesFromFile(path: string, content: Option<string>, decodeJson: string -> Option<seq<AddressItem>>)
    returns (r: Outcome<seq<AddressItem>, ReadError>)
    ensures r == ReadResult(path, content, decodeJson)
  {
    if content.None? {
      return Err(ReadFailed);
    }
    var ext := Ext(path);
    if ext == JsonExt {
      var decoded := decodeJson(content.value);
      if decoded.None? {
        return Err(JsonInvalid);
      }
      r := Ok(decoded.value);
    } else if ext == TxtExt {
      var addresses := ScanTxt(content.value);
      r := Ok(addresses);
    } else {
      r := Err(UnsupportedFormat(ext));
    }
  }

  /** The TXT branch: skip an optional header line, then collect one item per
      line with at least two fields. */
  method ScanTxt(text: string) returns (addresses: seq<AddressItem>)
    ensures addresses == ParseTxt(text)
  {
    var lines := Lines(text);
    var start := 0;
    if |lines| > 0 && Contains(lines[0], HeaderMark) {
      start := 1;
    }
    addresses := [];
    var i := start;
    while i < |lines|
      invariant start <= i <= |lines|
      invariant addresses == ParseLines(lines[start..i])
    {
      ParseLinesStep(lines, start, i);
      var parts := Fields(lines[i]);
      if |parts| >= 2 {
        assert LineItems(lines[i]) == [AddressItem(parts[0], Join(parts[1..], " "))];
        addresses := addresses + [AddressItem(parts[0], Join(parts[1..], " "))];
      } else {
        assert LineItems(lines[i]) == [];
      }
      i := i + 1;
    }
    assert lines[start..i] == DataLines(lines);
  }

  lemma ParseLinesStep(lines: seq<string>, start: nat, i: nat)
    requires start <= i < |lines|
    ensures ParseLines(lines[start..i + 1]) == ParseLines(lines[start..i]) + LineItems(lines[i])
  {
    assert lines[start..i + 1][..i - start] == lines[start..i];
  }

  /** Items of consecutive blocks of lines come out block after block. */
  lemma {:induction false} ParseLinesAppend(a: seq<string>, b: seq<string>)
    ensures ParseLines(a + b) == ParseLines(a) + ParseLines(b)
    decreases |b|
  {
    if b == [] {
      assert a + b == a;
    } else {
      var b', last := b[..|b| - 1], LineItems(b[|b| - 1]);
      assert (a + b)[..|a + b| - 1] == a + b';
      assert (a + b)[|a + b| - 1] == b[|b| - 1];
      assert ParseLines(a + b) == ParseLines(a + b') + last;
      ParseLinesAppend(a, b');
      assert ParseLines(b) == ParseLines(b') + last;
      assert (ParseLines(a) + ParseLines(b')) + last == ParseLines(a) + (ParseLines(b') + last);
    }
  }

  /** A single line yields its own items. */
  lemma ParseLinesSingle(line: string)
    ensures ParseLines([line]) == LineItems(line)
  {
    assert [line][..0] == [];
  }

  /** The header rule on a file's first line: it is dropped exactly when it
      contains two consecutive spaces, and parsed as data otherwise. */
  lemma HeaderRule(first: string, rest: string)
    requires '\n' !in first
    ensures ParseTxt(first + "\n" + rest) ==
              (if Contains(DropCR(first), HeaderMark) then [] else LineItems(DropCR(first)))
              + ParseLines(Lines(rest))
  {
    LinesCons(first, rest);
    ParseLinesSingle(DropCR(first));
    ParseLinesAppend([DropCR(first)], Lines(rest));
  }

  /** The header rule on a file without a newline: its only line is dropped
      when it contains two consecutive spaces, so such a file yields nothing. */
  lemma HeaderRuleOneLine(content: string)
    requires '\n' !in content
    ensures ParseTxt(content) ==
              (if Contains(DropCR(content), HeaderMark) then [] else LineItems(DropCR(content)))
  {
    LinesLast(content);
    if content != [] {
      ParseLinesSingle(DropCR(content));
    } else {
      assert !Contains([], HeaderMark);
      assert Fields([]) == [];
    }
  }

  /** Only the exact extensions ".json" and ".txt" are read; a readable file
      with any other extension is refused with that extension. */
  lemma ExtensionRule(path: string, text: string, decodeJson: string -> Option<seq<AddressItem>>)
    ensures (ReadResult(path, Some(text), decodeJson) == Err(UnsupportedFormat(Ext(path))))
              <==> (Ext(path) != JsonExt && Ext(path) != TxtExt)
    ensures Ext(path) == TxtExt ==> ReadResult(path, Some(text), decodeJson) == Ok(ParseTxt(text))
  {
  }

  // ---------------------------------------------------------------------------
  // Writing
  // ---------------------------------------------------------------------------

  /** The text line of one item: address, two spaces, label. */
  function ItemLine(item: AddressItem): string {
    item.address + "  " + item.labelText
  }

  /** The lines of the items, each newline-terminated. */
  function Body(items: seq<AddressItem>): string {
    if items == [] then [] else ItemLine(items[0]) + "\n" + Body(items[1..])
  }

  /** The whole TXT file: the header line and one line per item. */
  function Render(items: seq<AddressItem>): string {
    Header + "\n" + Body(items)
  }

  lemma {:induction false} BodySnoc(items: seq<AddressItem>, item: AddressItem)
    ensures Body(items + [item]) == Body(items) + ItemLine(item) + "\n"
    decreases |items|
  {
    if items == [] {
      assert [] + [item] == [item];
    } else {
      var head, line := ItemLine(items[0]) + "\n", ItemLine(item) + "\n";
      assert (items + [item])[1..] == items[1..] + [item];
      assert Body(items + [item]) == head + Body(items[1..] + [item]);
      BodySnoc(items[1..], item);
      assert Body(items[1..] + [item]) == Body(items[1..]) + line;
      assert head + (Body(items[1..]) + line) == (head + Body(items[1..])) + line;
    }
  }

  /** The writer of a kept list in TXT form. */
  method FormatTxt(items: seq<AddressItem>) returns (content: string)
    ensures content == Render(items)
  {
    content := Header + "\n";
    for i := 0 to |items|
      invariant content == Header + "\n" + Body(items[..i])
    {
      BodySnoc(items[..i], items[i]);
      assert items[..i + 1] == items[..i] + [items[i]];
      content := content + (items[i].address + "  " + items[i].labelText + "\n");
    }
    assert items[..|items|] == items;
  }

  // ---------------------------------------------------------------------------
  // Round trip
  // ---------------------------------------------------------------------------

  /** An item the TXT format can carry: the address is one whitespace-free
      token, and the label is non-empty words separated by single spaces. */
  predicate WellFormed(item: AddressItem) {
    && IsToken(item.address)
    && Fields(item.labelText) != []
    && Join(Fields(item.labelText), " ") == item.labelText
  }

  /** The line of a well-formed item reads back as that item. */
  lemma ItemLineReadsBack(item: AddressItem)
    requires WellFormed(item)
    ensures '\n' !in ItemLine(item)
    ensures DropCR(ItemLine(item)) == ItemLine(item)
    ensures LineItems(ItemLine(item)) == [item]
  {
    var a, l := item.address, item.labelText;
    var line := ItemLine(item);
    LabelChars(l);
    assert line == a + ("  " + l);
    assert forall i :: 0 <= i < |line| ==> line[i] != '\n' by {
      forall i | 0 <= i < |line| ensures line[i] != '\n' {
        if i >= |a| + 2 {
          assert line[i] == l[i - |a| - 2];
        }
      }
    }
    assert line[|line| - 1] == l[|l| - 1];
    FieldsTokenThen(a, "  " + l);
    FieldsSkipSpaces("  ", l);
    assert Fields(line) == [a] + Fields(l);
  }

  /** The label of a well-formed item holds no newline and does not end in a
      carriage return. */
  lemma LabelChars(l: string)
    requires Fields(l) != [] && Join(Fields(l), " ") == l
    ensures forall i :: 0 <= i < |l| ==> l[i] != '\n'
    ensures l != [] && l[|l| - 1] != '\r'
  {
    var ws := Fields(l);
    forall i | 0 <= i < |l| ensures l[i] != '\n' {
      JoinChars(ws, i);
    }
    JoinLast(ws);
  }

  lemma {:induction false} BodyLines(items: seq<AddressItem>)
    requires forall k :: 0 <= k < |items| ==> WellFormed(items[k])
    ensures ParseLines(Lines(Body(items))) == items
  {
    if items != [] {
      var rest := Body(items[1..]);
      assert Body(items) == ItemLine(items[0]) + "\n" + rest;
      ItemLineThen(items[0], rest);
      BodyLines(items[1..]);
      assert items == [items[0]] + items[1..];
    }
  }

  /** A well-formed item's line in front of more text reads back as the item
      followed by whatever the rest reads as. */
  lemma ItemLineThen(item: AddressItem, rest: string)
    requires WellFormed(item)
    ensures ParseLines(Lines(ItemLine(item) + "\n" + rest)) == [item] + ParseLines(Lines(rest))
  {
    var line := ItemLine(item);
    ItemLineReadsBack(item);
    LinesCons(line, rest);
    ParseLinesSingle(line);
    ParseLinesAppend([line], Lines(rest));
  }

  /** Writing well-formed items and reading the file back gives the same
      items in the same order. */
  lemma TxtRoundTrip(items: seq<AddressItem>)
    requires forall k :: 0 <= k < |items| ==> WellFormed(items[k])
    ensures ParseTxt(Render(items)) == items
  {
    HeaderIsHeader();
    LinesCons(Header, Body(items));
    BodyLines(items);
  }

  /** The writer's header line is recognised as a header. */
  lemma HeaderIsHeader()
    ensures '\n' !in Header
    ensures DropCR(Header) == Header
    ensures Contains(Header, HeaderMark)
  {
    assert Header[|Header| - 1] == 'l';
    assert forall i :: 0 <= i < |Header| ==> Header[i] != '\n';
    HeaderHasMark();
  }

  lemma HeaderHasMark()
    ensures Contains(Header, HeaderMark)
  {
    ContainsMiddle("address", HeaderMark, "label");
    assert "address" + HeaderMark + "label" == Header;
  }

  /** The same round trip through the reader's extension dispatch. */
  lemma TxtFileRoundTrip(path: string, items: seq<AddressItem>, decodeJson: string -> Option<seq<AddressItem>>)
    requires Ext(path) == TxtExt
    requires forall k :: 0 <= k < |items| ==> WellFormed(items[k])
    ensures ReadResult(path, Some(Render(items)), decodeJson) == Ok(items)
  {
    TxtRoundTrip(items);
  }

  /** Every item the TXT reader produces can be written back: its address is a
      field and its label is fields joined by single spaces. */
  lemma LineItemsWellFormed(line: string)
    ensures forall k :: 0 <= k < |LineItems(line)| ==> WellFormed(LineItems(line)[k])
  {
    var f := Fields(line);
    if |f| >= 2 {
      FieldsOfJoin(f[1..]);
    }
  }

  lemma {:induction false} ParseLinesWellFormed(lines: seq<string>)
    ensures forall k :: 0 <= k < |ParseLines(lines)| ==> WellFormed(ParseLines(lines)[k])
  {
    if lines != [] {
      ParseLinesWellFormed(lines[..|lines| - 1]);
      LineItemsWellFormed(lines[|lines| - 1]);
    }
  }

  lemma ParseTxtWellFormed(text: string)
    ensures forall k :: 0 <= k < |ParseTxt(text)| ==> WellFormed(ParseTxt(text)[k])
  {
    ParseLinesWellFormed(DataLines(Lines(text)));
  }
}
