/** The attachment-link list of the assignment form. */
module CreateAssignment {

  /** `list.filter((_, i) => i !== index)`: every element except the one at `index`. */
  function WithoutIndex(list: seq<string>, index: int): seq<string>
    decreases |list|
  {
    if list == [] then []
    else
      var n := |list|;
      WithoutIndex(list[..n - 1], index) + (if n - 1 != index then [list[n - 1]] else [])
  }

  /** Only an index past the end of the list leaves it unchanged. */
  lemma {:induction false} WithoutIndexOutOfRange(list: seq<string>, index: int)
    requires index < 0 || index >= |list|
    ensures WithoutIndex(list, index) == list
    decreases |list|
  {
    if list != [] {
      var n := |list|;
      WithoutIndexOutOfRange(list[..n - 1], index);
      assert list[..n - 1] + [list[n - 1]] == list;
    }
  }

  /** A valid index drops exactly that element, keeping the rest in order. */
  lemma {:induction false} WithoutIndexInRange(list: seq<string>, index: int)
    requires 0 <= index < |list|
    ensures WithoutIndex(list, index) == list[..index] + list[index + 1..]
    decreases |list|
  {
    var n := |list|;
    if index == n - 1 {
      WithoutIndexOutOfRange(list[..n - 1], index);
    } else {
      WithoutIndexInRange(list[..n - 1], index);
      assert list[..n - 1][..index] == list[..index];
      assert list[..n - 1][index + 1..] + [list[n - 1]] == list[index + 1..];
    }
  }

  /** The `attachments` state of the form. */
  class AttachmentList {
    var attachments: seq<string>

    constructor ()
      ensures attachments == []
    {
      attachments := [];
    }

    /** Line 53: a new empty link at the end. */
    method AddAttachment()
      modifies this
      ensures attachments == old(attachments) + [""]
    {
      attachments := attachments + [""];
    }

    /** Lines 54-58: copy the list, write one slot, store the copy. */
    method UpdateAttachment(index: int, value: string)
      requires 0 <= index < |attachments|
      modifies this
      ensures attachments == old(attachments)[index := value]
    {
      var newAttachments := new string[|attachments|](i requires 0 <= i < |attachments| reads this => attachments[i]);
      newAttachments[index] := value;
      attachments := newAttachments[..];
    }

    /** Line 59: drop the link at `index`. */
    method RemoveAttachment(index: int)
      modifies this
      ensures attachments == WithoutIndex(old(attachments), index)
    {
      attachments := WithoutIndex(attachments, index);
    }
  }

  /** Adding grows the list by one empty link and keeps every earlier link. */
  lemma AddKeepsLinks(list: seq<string>)
    ensures |list + [""]| == |list| + 1 && (list + [""])[|list|] == ""
    ensures forall i :: 0 <= i < |list| ==> (list + [""])[i] == list[i]
  {
  }

  /** Removing at a valid index shortens the list by one; elsewhere it changes nothing. */
  lemma RemoveLength(list: seq<string>, index: int)
    ensures 0 <= index < |list| ==> |WithoutIndex(list, index)| == |list| - 1
    ensures !(0 <= index < |list|) ==> WithoutIndex(list, index) == list
  {
    if 0 <= index < |list| {
      WithoutIndexInRange(list, index);
    } else {
      WithoutIndexOutOfRange(list, index);
    }
  }
}
