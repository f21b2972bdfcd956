/**
 * The two string conventions the chat bot uses against the table: the
 * argument of `/search <name>` and the `del_<id>` payload of the delete
 * button shown under each search result.
 */
module Chat {
  import opened Wrappers
  import opened Strings
  import opened Numbers
  import opened Students

  // ---------------------------------------------------------------- /search

  /**
   * `text.split(" ").slice(1).join(" ")`: everything but the first
   * space-separated piece. That is exactly the text after the first space,
   * spacing kept as typed, and empty when the message has no space.
   */
  function SearchArgument(text: string): (arg: string)
    ensures ' ' !in text ==> arg == ""
    ensures ' ' in text ==> arg == text[IndexOf(text, ' ') + 1..]
  {
    SplitAtFirst(text, ' ');
    if ' ' in text then
      JoinSplit(text[IndexOf(text, ' ') + 1..], ' ');
      Join(Split(text, ' ')[1..], ' ')
    else
      Join(Split(text, ' ')[1..], ' ')
  }

  /** What the `/search` command does: reply with the usage hint, or look the argument up. */
  datatype SearchReply = Usage | Lookup(query: string)

  /**
   * An empty argument (no space, or nothing after the first one) gets the
   * usage hint and no lookup; otherwise the text after the first space is
   * looked up.
   */
  function SearchCommand(text: string): (r: SearchReply)
    ensures r.Usage? <==> ' ' !in text || IndexOf(text, ' ') == |text| - 1
    ensures r.Lookup? ==> ' ' in text && r.query == text[IndexOf(text, ' ') + 1..] && r.query != ""
  {
    var query := SearchArgument(text);
    if query == "" then Usage else Lookup(query)
  }

  // ---------------------------------------------------------------- delete button

  /** The callback payload `del_${id}` of the delete button shown with a record. */
  function EncodeDelete(id: nat): (data: string)
    ensures |data| > 4 && data[..4] == "del_"
    ensures forall k :: 4 <= k < |data| ==> IsDecimalDigit(data[k])
  {
    "del_" + DecimalString(id)
  }

  /** The regular expression `del_(\d+)` matches at index `i`. */
  predicate DelAt(data: string, i: nat)
  {
    i + 5 <= |data| && data[i..i + 4] == "del_" && IsDecimalDigit(data[i + 4])
  }

  /**
   * `/del_(\d+)/` run against a payload: the leftmost match, whose group is
   * the longest run of decimal digits after `del_`; `None` when nothing matches.
   */
  function MatchDelete(data: string): (group: Option<string>)
    ensures group.Some? <==> exists i: nat :: DelAt(data, i)
    ensures group.Some? ==> group.value != [] && forall k :: 0 <= k < |group.value| ==> IsDecimalDigit(group.value[k])
    decreases |data|
  {
    if |data| < 5 then
      assert forall i: nat :: !DelAt(data, i);
      None
    else if data[..4] == "del_" && IsDecimalDigit(data[4]) then
      assert DelAt(data, 0);
      Some(DigitPrefix(data[4..], 10))
    else
      var rest := MatchDelete(data[1..]);
      assert (exists i: nat :: DelAt(data, i)) <==> (exists i: nat :: DelAt(data[1..], i)) by {
        if exists i: nat :: DelAt(data, i) {
          var i: nat :| DelAt(data, i);
          assert i != 0;
          assert data[1..][i - 1..i + 3] == data[i..i + 4];
          assert DelAt(data[1..], i - 1);
        }
        if exists i: nat :: DelAt(data[1..], i) {
          var i: nat :| DelAt(data[1..], i);
          assert data[1..][i..i + 4] == data[i + 1..i + 5];
          assert DelAt(data, i + 1);
        }
      }
      rest
  }

  /**
   * The match is the leftmost one: at the first index where `del_` is followed
   * by a digit, the group is the whole run of digits there (`\d+` is greedy).
   */
  lemma {:induction false} MatchDeleteLeftmost(data: string, i: nat)
    requires DelAt(data, i)
    requires forall j: nat :: j < i ==> !DelAt(data, j)
    ensures MatchDelete(data) == Some(DigitPrefix(data[i + 4..], 10))
    decreases i
  {
    if i > 0 {
      assert !DelAt(data, 0);
      assert data[1..][i - 1..i + 3] == data[i..i + 4];
      assert DelAt(data[1..], i - 1);
      forall j: nat | j < i - 1 ensures !DelAt(data[1..], j) {
        assert data[1..][j..j + 4] == data[j + 1..j + 5];
        assert !DelAt(data, j + 1);
      }
      MatchDeleteLeftmost(data[1..], i - 1);
      assert data[1..][i - 1 + 4..] == data[i + 4..];
    }
  }

  /** The regular expression captures exactly the decimal digits of the id in the payload. */
  lemma MatchEncodeDelete(id: nat)
    ensures MatchDelete(EncodeDelete(id)) == Some(DecimalString(id))
  {
    var data := EncodeDelete(id);
    assert data[..4] == "del_";
    assert data[4..] == DecimalString(id) + [];
    assert data[4] == DecimalString(id)[0];
    DigitPrefixOfDigits(DecimalString(id), [], 10);
  }

  /**
   * Round trip of the delete button: the captured group, parsed by the
   * DELETE handler's `parseInt`, is the id the button was made for.
   */
  lemma DeleteCallbackRoundTrip(id: nat)
    ensures MatchDelete(EncodeDelete(id)).Some?
    ensures ParseInt(MatchDelete(EncodeDelete(id)).value) == Some(id)
  {
    MatchEncodeDelete(id);
    ParseIntDecimal(id, []);
    assert DecimalString(id) + [] == DecimalString(id);
  }

  /**
   * The table after a press of a button carrying `data`: when the regular
   * expression matches, the captured digits go to the DELETE handler; when it
   * does not, the action handler never runs.
   */
  function PressDelete(students: seq<Record>, data: string): (r: seq<Record>)
    ensures (forall i: nat :: !DelAt(data, i)) ==> r == students
    ensures forall k :: 0 <= k < |r| ==> r[k] in students
  {
    match MatchDelete(data)
    case None => students
    case Some(digits) => DeleteRecords(students, ParseInt(digits))
  }

  /** Pressing the button shown with the record at `i` removes that record and no other. */
  lemma PressDeleteRemovesShownRecord(students: seq<Record>, nextId: int, i: nat)
    requires StoreInv(students, nextId) && i < |students|
    ensures IdOf(students[i]) >= 0
    ensures PressDelete(students, EncodeDelete(IdOf(students[i]))) == students[..i] + students[i + 1..]
  {
    var id := IdOf(students[i]);
    DeleteCallbackRoundTrip(id);
    DeleteUnique(students, nextId, i);
  }
}
