/** How the clipboard owner reads its text (native/wayland-clipboard/wayland-clipboard.c). */
module ClipboardText {
  import opened Common

  type Byte = bv8

  const MAX_TEXT_BYTES := 16 * 1024 * 1024

  /** How one read of standard input goes: interrupted, failed, or with some bytes if there are any left. */
  datatype Feed = Interruption | Failure | Gives(count: nat)

  /** read_text: the whole input if it fits, and nothing of it otherwise, however it is cut into reads. */
  method ReadText(input: seq<Byte>, feeds: seq<Feed>) returns (r: Option<seq<Byte>>)
    ensures r.Some? ==> r.value == input && |input| <= MAX_TEXT_BYTES
    ensures Failure !in feeds ==> (r.Some? <==> |input| <= MAX_TEXT_BYTES)
  {
    var text: seq<Byte>, k := [], 0;
    while |text| <= MAX_TEXT_BYTES
      invariant |text| <= |input| && |text| <= MAX_TEXT_BYTES + 1 && text == input[..|text|]
      invariant k <= |feeds|
      decreases |feeds| - k, |input| - |text|
    {
      var request := MAX_TEXT_BYTES + 1 - |text|;
      var feed := if k < |feeds| then feeds[k] else Gives(request);
      k := if k < |feeds| then k + 1 else k;
      if feed == Interruption {
        continue;
      }
      if feed == Failure {
        return None;
      }
      var count := Least(if feed.count == 0 then 1 else feed.count, Least(request, |input| - |text|));
      if count == 0 {
        return Some(text);
      }
      text := text + input[|text|..|text| + count];
    }
    return None;
  }

  function Least(a: nat, b: nat): nat { if a <= b then a else b }
}
