/** AutoSizeText.kt: a one-line text whose font size follows the space it is given and which, when
    it still does not fit, loses characters from its start and shows an ellipsis there. Text
    measurement is a parameter: `measure(text, fontSize)` is the laid-out width. */
module AutoSizeText {
  import opened Errors

  datatype Option<T> = None | Some(value: T)

  function Min(a: int, b: int): int { if a <= b then a else b }
  function Max(a: int, b: int): int { if a >= b then a else b }

  /** Integer division of naturals rounds down: the quotient is the largest multiple that fits. */
  lemma Quotient(a: nat, b: nat)
    ensures b > 0 ==> (a / b) * b <= a < (a / b + 1) * b
  {
  }

  lemma ScaleMonotone(x: int, y: int, n: nat)
    requires x <= y
    ensures x * n <= y * n
  {
  }

  /** The font size chosen in `onTextLayout`, from the layout constraints and the length of the text
      being laid out. A fixed size wins; otherwise the size is the largest one for which half the
      height and an even share of the width per character both have room, but never below the minimal
      size. An empty text has no width share, which counts as 0. */
  function FontSize(fixedFontSize: Option<int>, maxHeight: nat, maxWidth: nat, length: nat, minimalFontSize: int): (r: int)
    ensures fixedFontSize.Some? ==> r == fixedFontSize.value
    ensures fixedFontSize.None? ==> r >= minimalFontSize
    ensures fixedFontSize.None? && r > minimalFontSize ==> 2 * r <= maxHeight && r * length <= maxWidth
    ensures fixedFontSize.None? && r > minimalFontSize && length > 0 ==> (r + 1) * 2 > maxHeight || (r + 1) * length > maxWidth
    ensures fixedFontSize.None? && length == 0 ==> r == Max(0, minimalFontSize)
  {
    var height := maxHeight / 2;
    var width := if length == 0 then 0 else maxWidth / length;
    Quotient(maxHeight, 2);
    Quotient(maxWidth, length);
    ScaleMonotone(Min(height, width), width, length);
    if fixedFontSize.Some? then fixedFontSize.value else Max(Min(height, width), minimalFontSize)
  }

  /** The trim loop: measured at `fontSize`, the text loses its first character while it is wider
      than `maxWidth`. The result is the longest end of the text that fits. Taking a character from an
      empty text throws. */
  method TrimStart(text: string, fontSize: int, maxWidth: int, measure: (string, int) -> int) returns (r: Result<string>)
    ensures r.Ok? ==> |r.value| <= |text| && r.value == text[|text| - |r.value|..]
    ensures r.Ok? ==> measure(r.value, fontSize) <= maxWidth
    ensures r.Ok? ==> forall k :: 0 <= k < |text| - |r.value| ==> measure(text[k..], fontSize) > maxWidth
    ensures r.Err? ==> r.error == IndexOutOfBounds && forall k :: 0 <= k <= |text| ==> measure(text[k..], fontSize) > maxWidth
  {
    var currentText := text;
    ghost var dropped := 0;
    var width := measure(currentText, fontSize);
    while width > maxWidth
      invariant dropped <= |text| && currentText == text[dropped..]
      invariant width == measure(currentText, fontSize)
      invariant forall k :: 0 <= k < dropped ==> measure(text[k..], fontSize) > maxWidth
      decreases |currentText|
    {
      if currentText == [] {
        return Err(IndexOutOfBounds);
      }
      currentText := currentText[1..];
      dropped := dropped + 1;
      assert currentText == text[dropped..];
      width := measure(currentText, fontSize);
    }
    return Ok(currentText);
  }

  /** The ellipsis rule: a text shorter than the input, and longer than three characters, shows "..."
      in place of its first three characters. */
  function Ellipsis(currentText: string, text: string): (r: string)
    ensures |r| == |currentText|
    ensures |currentText| < |text| && |currentText| > 3 ==> r[..3] == "..." && r[3..] == currentText[3..]
    ensures !(|currentText| < |text| && |currentText| > 3) ==> r == currentText
  {
    if |currentText| < |text| && |currentText| > 3 then "..." + currentText[3..] else currentText
  }

  /** The state the composable remembers between compositions. */
  class AutoSizeTextState {
    var currentText: string
    var originalText: string
    var fontSize: int

    /** The first composition: both texts are the input, the font size the style's. */
    constructor (text: string, styleFontSize: int)
      ensures currentText == text && originalText == text && fontSize == styleFontSize
    {
      currentText, originalText, fontSize := text, text, styleFontSize;
    }

    /** A later composition with input `text`: a changed input replaces the displayed text. */
    method Recompose(text: string)
      modifies this
      ensures originalText == text
      ensures old(originalText) != text ==> currentText == text
      ensures old(originalText) == text ==> currentText == old(currentText)
      ensures fontSize == old(fontSize)
    {
      if originalText != text {
        currentText := text;
        originalText := text;
      }
    }

    /** `onTextLayout` for input `text`, after `currentText` was laid out in the given constraints: the
        font size is chosen from the laid-out text's length, then the text is trimmed from the start
        until it fits and, if trimmed, starts with an ellipsis. When even the empty text is too wide the
        trim throws, having removed every character. */
    method OnTextLayout(text: string, maxHeight: nat, maxWidth: nat, minimalFontSize: int, fixedFontSize: Option<int>,
                        measure: (string, int) -> int) returns (r: Outcome)
      modifies this
      ensures fontSize == FontSize(fixedFontSize, maxHeight, maxWidth, |old(currentText)|, minimalFontSize)
      ensures originalText == old(originalText)
      ensures r.Fail? ==> r.error == IndexOutOfBounds && currentText == []
                          && forall k :: 0 <= k <= |old(currentText)| ==> measure(old(currentText)[k..], fontSize) > maxWidth
      ensures r.Pass? ==> exists d :: 0 <= d <= |old(currentText)|
                            && measure(old(currentText)[d..], fontSize) <= maxWidth
                            && (forall k :: 0 <= k < d ==> measure(old(currentText)[k..], fontSize) > maxWidth)
                            && currentText == Ellipsis(old(currentText)[d..], text)
    {
      fontSize := FontSize(fixedFontSize, maxHeight, maxWidth, |currentText|, minimalFontSize);
      var trimmed := TrimStart(currentText, fontSize, maxWidth, measure);
      if trimmed.Err? {
        currentText := [];
        return Fail(trimmed.error);
      }
      ghost var d := |currentText| - |trimmed.value|;
      assert measure(currentText[d..], fontSize) <= maxWidth;
      currentText := Ellipsis(trimmed.value, text);
      r := Pass;
    }
  }
}
