/** The helpers both popups define identically: the status label and the
    file name a download is requested under. */
module PopupCommon {
  import opened Strings

  /** `getStatusText(status)`: `statusMap[status] || status`. */
  function StatusText(status: string): string {
    if status == "detected" then "Detected"
    else if status == "downloading" then "Downloading"
    else if status == "completed" then "Completed"
    else if status == "failed" then "Failed"
    else status
  }

  /** `shown` is `word` with its first letter in upper case and the rest
      as it is, so lower-casing `shown` gives `word` back. */
  predicate Capitalises(shown: string, word: string) {
    && shown != word
    && |shown| == |word| > 0
    && 'A' <= shown[0] <= 'Z'
    && shown[1..] == word[1..]
    && Lower(shown) == word
  }

  /** Each of the four statuses is shown capitalised; every other value is
      shown as it is. */
  lemma StatusTextLabels(status: string)
    ensures status in {"detected", "downloading", "completed", "failed"} ==>
              Capitalises(StatusText(status), status)
    ensures status !in {"detected", "downloading", "completed", "failed"} ==> StatusText(status) == status
  {
    if status == "detected" {
      CapitalisedLowers("detected", "Detected");
    } else if status == "downloading" {
      CapitalisedLowers("downloading", "Downloading");
    } else if status == "completed" {
      CapitalisedLowers("completed", "Completed");
    } else if status == "failed" {
      CapitalisedLowers("failed", "Failed");
    }
  }

  /** A lower-case word with its first letter raised to upper case lowers
      back to the word. */
  lemma CapitalisedLowers(word: string, shown: string)
    requires word != [] && 'a' <= word[0] <= 'z'
    requires forall i | 1 <= i < |word| :: !('A' <= word[i] <= 'Z')
    requires |shown| == |word| && shown[0] as int == word[0] as int - 32 && shown[1..] == word[1..]
    ensures Capitalises(shown, word)
  {
    forall i | 0 <= i < |word|
      ensures Lower(shown)[i] == word[i]
    {
      if i > 0 {
        assert shown[i] == shown[1..][i - 1];
      }
    }
  }

  /** A label is shown as it is: applying the map twice changes nothing. */
  lemma StatusTextIdempotent(status: string)
    ensures StatusText(StatusText(status)) == StatusText(status)
  {
    var t := StatusText(status);
    if t != status {
      assert t[0] != "detected"[0] && t[0] != "downloading"[0] && t[0] != "completed"[0] && t[0] != "failed"[0];
    }
  }

  /** `filenameInput.value.trim() || 'stream'` */
  function DownloadName(input: string): (name: string)
    ensures name != [] && !IsSpace(name[0]) && !IsSpace(name[|name| - 1])
    ensures (forall i | 0 <= i < |input| :: IsSpace(input[i])) ==> name == "stream"
    ensures !(forall i | 0 <= i < |input| :: IsSpace(input[i])) ==> Contains(input, name)
  {
    var t := Trim(input);
    TrimInfix(input);
    if t == "" then "stream" else t
  }

  /** The name sent is already trimmed, so the default is a fixed point. */
  lemma DownloadNameIdempotent(input: string)
    ensures DownloadName(DownloadName(input)) == DownloadName(input)
  {
    TrimClean(DownloadName(input));
  }
}
