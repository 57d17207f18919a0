/** Book-level conversion (`convert_epub_to_text` in app.py): keep the items
    typed as documents, in item order, and concatenate each one's extracted
    chapter text followed by a newline.

    The EPUB container reader is not modelled: a book is its item sequence,
    each item carrying a document flag and its already parsed text nodes. */
module EpubConvert {
  import opened StringParts
  import opened ChapterText

  datatype Option<T> = None | Some(value: T)

  /** One item of the container: whether it is typed as a document, and its
      content as the markup parser would see it. */
  datatype Item = Item(isDocument: bool, content: seq<TextNode>)

  /** The uploaded file: its name attribute, when it has one, and its items. */
  datatype EpubFile = EpubFile(name: Option<string>, items: seq<Item>)

  /** The book name used when the uploaded file has no name. */
  const DefaultBookName: string := "converted_book"

  /** The contents of the document items, in item order. */
  function Documents(items: seq<Item>): (chapters: seq<seq<TextNode>>)
    decreases |items|
  {
    if items == [] then []
    else
      var last := items[|items| - 1];
      Documents(items[..|items| - 1]) + (if last.isDocument then [last.content] else [])
  }

  /** Each chapter's extracted text followed by a newline, in order. */
  function BookText(chapters: seq<seq<TextNode>>): (text: string)
    decreases |chapters|
  {
    if chapters == [] then ""
    else BookText(chapters[..|chapters| - 1]) + (ChapterOutput(chapters[|chapters| - 1]) + "\n")
  }

  /** The whole conversion: the book name (from the file name through `stem`,
      which stands for the path library's stem) and the book's text. */
  method ConvertEpubToText(file: EpubFile, stem: string -> string) returns (bookName: string, text: string)
    ensures file.name.Some? ==> bookName == stem(file.name.value)
    ensures file.name.None? ==> bookName == DefaultBookName
    ensures text == BookText(Documents(file.items))
  {
    if file.name.Some? {
      bookName := stem(file.name.value);
    } else {
      bookName := DefaultBookName;
    }
    var chapters: seq<seq<TextNode>> := [];
    for i := 0 to |file.items|
      invariant chapters == Documents(file.items[..i])
    {
      var item := file.items[i];
      if item.isDocument {
        chapters := chapters + [item.content];
      }
      assert file.items[..i + 1][..i] == file.items[..i];
    }
    assert file.items[..|file.items|] == file.items;
    text := "";
    for i := 0 to |chapters|
      invariant text == BookText(chapters[..i])
    {
      var chapterText := ChapterToText(chapters[i]);
      text := text + (chapterText + "\n");
      assert chapters[..i + 1][..i] == chapters[..i];
    }
    assert chapters[..|chapters|] == chapters;
  }

  // ----- Reference description: counts and lengths -----

  /** Number of items typed as documents. */
  function DocumentCount(items: seq<Item>): (count: nat) {
    |set i | 0 <= i < |items| && items[i].isDocument|
  }

  /** Total length of the chapters' extracted texts. */
  function ChaptersLength(chapters: seq<seq<TextNode>>): (total: nat)
    decreases |chapters|
  {
    if chapters == [] then 0
    else ChaptersLength(chapters[..|chapters| - 1]) + |ChapterOutput(chapters[|chapters| - 1])|
  }

  // ----- Lemmas -----

  /** Selecting documents distributes over concatenation of item lists. */
  lemma {:induction false} DocumentsAppend(a: seq<Item>, b: seq<Item>)
    ensures Documents(a + b) == Documents(a) + Documents(b)
    decreases |b|
  {
    if b == [] {
      assert a + b == a;
    } else {
      DocumentsAppend(a, b[..|b| - 1]);
      assert (a + b)[..|a + b| - 1] == a + b[..|b| - 1];
    }
  }

  /** The book text distributes over concatenation of chapter lists. */
  lemma {:induction false} BookTextAppend(a: seq<seq<TextNode>>, b: seq<seq<TextNode>>)
    ensures BookText(a + b) == BookText(a) + BookText(b)
    decreases |b|
  {
    if b == [] {
      assert a + b == a;
    } else {
      var b' := b[..|b| - 1];
      var x := ChapterOutput(b[|b| - 1]) + "\n";
      BookTextAppend(a, b');
      assert BookText(a + b) == BookText(a + b') + x by {
        assert (a + b)[..|a + b| - 1] == a + b';
        assert (a + b)[|a + b| - 1] == b[|b| - 1];
      }
      AppendAssoc(BookText(a), BookText(b'), x);
    }
  }

  /** A non-document item, wherever it stands, contributes nothing. */
  lemma NonDocumentIgnored(a: seq<Item>, x: Item, b: seq<Item>)
    requires !x.isDocument
    ensures BookText(Documents(a + [x] + b)) == BookText(Documents(a + b))
  {
    DocumentsAppend(a + [x], b);
    DocumentsAppend(a, [x]);
    DocumentsAppend(a, b);
    assert [x][..0] == [];
    assert Documents([x]) == [];
    assert Documents(a + [x]) == Documents(a);
  }

  /** A document item, wherever it stands, contributes its chapter text and
      one newline, between what the items before and after it contribute. */
  lemma DocumentContributes(a: seq<Item>, x: Item, b: seq<Item>)
    requires x.isDocument
    ensures BookText(Documents(a + [x] + b))
         == BookText(Documents(a)) + ChapterOutput(x.content) + "\n" + BookText(Documents(b))
  {
    DocumentsAppend(a + [x], b);
    DocumentsAppend(a, [x]);
    assert [x][..0] == [];
    assert Documents([x]) == [x.content];
    BookTextAppend(Documents(a) + [x.content], Documents(b));
    assert BookText([x.content]) == ChapterOutput(x.content) + "\n" by {
      assert [x.content][..0] == [];
    }
    BookTextAppend(Documents(a), [x.content]);
  }

  /** A book without document items converts to the empty string. */
  lemma {:induction false} NoDocumentsEmpty(items: seq<Item>)
    requires forall i :: 0 <= i < |items| ==> !items[i].isDocument
    ensures Documents(items) == []
    ensures BookText(Documents(items)) == ""
    decreases |items|
  {
    if items != [] {
      NoDocumentsEmpty(items[..|items| - 1]);
    }
  }

  /** One chapter per document item. */
  lemma {:induction false} DocumentsCounted(items: seq<Item>)
    ensures |Documents(items)| == DocumentCount(items)
    decreases |items|
  {
    if items != [] {
      var n := |items| - 1;
      var init := items[..n];
      DocumentsCounted(init);
      var s := set i | 0 <= i < |init| && init[i].isDocument;
      var s' := set i | 0 <= i < |items| && items[i].isDocument;
      if items[n].isDocument {
        assert s' == s + {n};
      } else {
        assert s' == s;
      }
    }
  }

  /** The text's length is the chapters' lengths plus one newline per chapter. */
  lemma {:induction false} BookTextLength(chapters: seq<seq<TextNode>>)
    ensures |BookText(chapters)| == ChaptersLength(chapters) + |chapters|
    decreases |chapters|
  {
    if chapters != [] {
      BookTextLength(chapters[..|chapters| - 1]);
    }
  }

  /** The text ends with a newline exactly when the book has a document item. */
  lemma EndsWithNewlineIffDocument(items: seq<Item>)
    ensures var t := BookText(Documents(items));
            (|t| > 0 && t[|t| - 1] == '\n') <==> DocumentCount(items) > 0
  {
    DocumentsCounted(items);
    var cs := Documents(items);
    if cs == [] {
      assert BookText(cs) == "";
    }
  }
}
