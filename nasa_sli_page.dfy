/**
 * The derived strings of the NASA SLI project page (src/app/projects/nasa-sli/page.tsx):
 * each gallery filename gives an image src, an alt text (every hyphen becomes a
 * space) and a caption (the alt text without a final `.jpg`, in any letter case),
 * and the rows of the specification table alternate two background classes.
 */
module NasaSliPage {

  const IMAGE_DIR: string := "/images/nasa-sli/"
  const EVEN_ROW: string := "bg-white/5"
  const ODD_ROW: string := "bg-transparent"

  /** One tile of the final gallery. */
  datatype GalleryTile = GalleryTile(src: string, alt: string, caption: string)

  /** One rendered row of the specification table. */
  datatype SpecRow = SpecRow(parameter: string, value: string)
  datatype RowView = RowView(parameter: string, value: string, rowClass: string)

  /** `s.replace(/-/g, ' ')`: every hyphen, not just the first, becomes a space. */
  function ReplaceHyphens(s: string): (r: string)
    ensures |r| == |s|
    ensures forall i :: 0 <= i < |s| ==> r[i] == if s[i] == '-' then ' ' else s[i]
  {
    if s == [] then []
    else [if s[0] == '-' then ' ' else s[0]] + ReplaceHyphens(s[1..])
  }

  /** The letter case folding of a non-Unicode `/i` regular expression on the letters it meets here. */
  function FoldCase(c: char): char {
    if 'A' <= c <= 'Z' then (c as int + 32) as char else c
  }

  /** `/\.jpg$/i` matches: the last four characters are a dot and `jpg` in any letter case. */
  predicate EndsWithJpg(s: string) {
    && |s| >= 4
    && s[|s| - 4] == '.'
    && FoldCase(s[|s| - 3]) == 'j'
    && FoldCase(s[|s| - 2]) == 'p'
    && FoldCase(s[|s| - 1]) == 'g'
  }

  /** `s.replace(/\.jpg$/i, '')`: the match can only be the final four characters. */
  function StripJpg(s: string): string {
    if EndsWithJpg(s) then s[..|s| - 4] else s
  }

  function ImageSrc(filename: string): string {
    IMAGE_DIR + filename
  }

  function AltText(filename: string): string {
    ReplaceHyphens(filename)
  }

  function Caption(filename: string): string {
    StripJpg(ReplaceHyphens(filename))
  }

  /** The gallery tile of one filename. */
  function Tile(filename: string): (r: GalleryTile)
    ensures |r.src| == |IMAGE_DIR| + |filename| && r.src[..|IMAGE_DIR|] == IMAGE_DIR && r.src[|IMAGE_DIR|..] == filename
    ensures |r.alt| == |filename| && '-' !in r.alt
    ensures |r.caption| <= |r.alt| && r.caption == r.alt[..|r.caption|]
  {
    CaptionFacts(filename);
    GalleryTile(ImageSrc(filename), AltText(filename), Caption(filename))
  }

  /** The hyphen rewrite leaves no hyphen behind, and is the identity exactly on hyphen-free names. */
  lemma AltTextFacts(filename: string)
    ensures '-' !in AltText(filename)
    ensures AltText(filename) == filename <==> '-' !in filename
  {
    var alt := AltText(filename);
    if '-' in filename {
      var i :| 0 <= i < |filename| && filename[i] == '-';
      assert alt[i] == ' ';
    } else {
      assert alt == filename;
    }
  }

  /** Rewriting hyphens cannot create or destroy a final `.jpg`, since no character of `.jpg` is a hyphen. */
  lemma EndsWithJpgUnaffected(filename: string)
    ensures EndsWithJpg(ReplaceHyphens(filename)) <==> EndsWithJpg(filename)
  {
  }

  /** A character that folds to a lower-case letter is not a hyphen. */
  lemma FoldedLetterNotHyphen(c: char, letter: char)
    requires 'a' <= letter <= 'z' && FoldCase(c) == letter
    ensures c != '-'
  {
  }

  lemma {:induction false} JpgSuffixKept(filename: string)
    requires EndsWithJpg(filename)
    ensures AltText(filename)[|filename| - 4..] == filename[|filename| - 4..]
  {
    var n, alt := |filename|, AltText(filename);
    FoldedLetterNotHyphen(filename[n - 3], 'j');
    FoldedLetterNotHyphen(filename[n - 2], 'p');
    FoldedLetterNotHyphen(filename[n - 1], 'g');
    assert alt[n - 4] == filename[n - 4];
    assert alt[n - 3] == filename[n - 3];
    assert alt[n - 2] == filename[n - 2];
    assert alt[n - 1] == filename[n - 1];
  }

  /**
   * The caption is the alt text minus a final `.jpg` in any case, and nothing else:
   * it has no hyphen, it is no longer than the filename, and the alt text is the
   * caption followed by exactly the four characters that were stripped.
   */
  lemma {:induction false} CaptionFacts(filename: string)
    ensures '-' !in Caption(filename)
    ensures |Caption(filename)| == if EndsWithJpg(filename) then |filename| - 4 else |filename|
    ensures AltText(filename) == Caption(filename) + (if EndsWithJpg(filename) then filename[|filename| - 4..] else [])
  {
    var alt := AltText(filename);
    var n := |filename|;
    AltTextFacts(filename);
    EndsWithJpgUnaffected(filename);
    if EndsWithJpg(filename) {
      assert Caption(filename) == alt[..n - 4];
      JpgSuffixKept(filename);
      assert alt == alt[..n - 4] + alt[n - 4..];
    } else {
      assert Caption(filename) == alt;
    }
  }

  /** A name without a final `.jpg` (another extension, or `.jpg` earlier in the name) keeps its text. */
  lemma OnlyFinalJpgStripped(filename: string)
    requires !EndsWithJpg(filename)
    ensures Caption(filename) == AltText(filename)
  {
    EndsWithJpgUnaffected(filename);
  }

  /** `index % 2 === 0 ? 'bg-white/5' : 'bg-transparent'`. */
  function Stripe(index: nat): string {
    if index % 2 == 0 then EVEN_ROW else ODD_ROW
  }

  /** `specificationRows.map((row, index) => ...)`: one view per row, in order, striped by index. */
  function SpecTable(rows: seq<SpecRow>): (r: seq<RowView>)
    ensures |r| == |rows|
    ensures forall i :: 0 <= i < |rows| ==>
      r[i].parameter == rows[i].parameter && r[i].value == rows[i].value && r[i].rowClass == Stripe(i)
  {
    seq(|rows|, i requires 0 <= i < |rows| => RowView(rows[i].parameter, rows[i].value, Stripe(i)))
  }

  /** Neighbouring rows always differ in background, and the pattern repeats every two rows starting light. */
  lemma StripesAlternate(rows: seq<SpecRow>, i: nat)
    requires i + 1 < |rows|
    ensures SpecTable(rows)[i].rowClass != SpecTable(rows)[i + 1].rowClass
    ensures SpecTable(rows)[0].rowClass == "bg-white/5"
    ensures i + 2 < |rows| ==> SpecTable(rows)[i + 2].rowClass == SpecTable(rows)[i].rowClass
  {
    assert EVEN_ROW[3] != ODD_ROW[3];
  }
}
