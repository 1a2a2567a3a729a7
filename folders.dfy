/**
 * The folder page of js/folders.js: the list of selected folders that the
 * card checkboxes maintain together with the `selecting` class of the
 * container, select-all and deselect-all, and the folder form with its
 * save-or-close decision.
 */
module Folders {
  import opened Results
  import opened Seqs

  // ------------------------------------------------------------ selection

  /** The ids of the first n cards whose checkbox is in the given state, in document order. */
  function PickedUpTo<T>(ids: seq<T>, checked: seq<bool>, n: nat, state: bool): seq<T>
    requires n <= |ids| == |checked|
  {
    if n == 0 then []
    else PickedUpTo(ids, checked, n - 1, state) + (if checked[n - 1] == state then [ids[n - 1]] else [])
  }

  /** The ids of all cards whose checkbox is in the given state, in document order. */
  function Picked<T>(ids: seq<T>, checked: seq<bool>, state: bool): seq<T>
    requires |ids| == |checked|
  {
    PickedUpTo(ids, checked, |ids|, state)
  }

  /** The multiset of x once when b holds, empty otherwise. */
  function Once<T>(b: bool, x: T): multiset<T> {
    if b then multiset{x} else multiset{}
  }

  /** Setting box i to v trades the id it picks before for the one it picks after, among the first n boxes. */
  ghost predicate SetLaw<T>(ids: seq<T>, checked: seq<bool>, i: int, v: bool, n: nat)
    requires 0 <= i < n <= |ids| == |checked|
  {
    multiset(PickedUpTo(ids, checked[i := v], n, true)) + Once(checked[i], ids[i]) ==
    multiset(PickedUpTo(ids, checked, n, true)) + Once(v, ids[i])
  }

  /** Once n is past box i, setting the box to v changes the first n picked ids by that box alone. */
  lemma {:induction false} PickedUpToSet<T>(ids: seq<T>, checked: seq<bool>, i: int, v: bool, n: nat)
    requires i < n <= |ids| == |checked| && 0 <= i
    ensures SetLaw(ids, checked, i, v, n)
  {
    if n == i + 1 {
      PickedSetAt(ids, checked, i, v);
    } else {
      PickedUpToSet(ids, checked, i, v, n - 1);
      PickedSetPast(ids, checked, i, v, n);
    }
  }

  /** The step at box i itself: below it the two settings pick the same ids. */
  lemma PickedSetAt<T>(ids: seq<T>, checked: seq<bool>, i: int, v: bool)
    requires |ids| == |checked| && 0 <= i < |ids|
    ensures SetLaw(ids, checked, i, v, i + 1)
  {
    var c := checked[i := v];
    PickedAgree(ids, c, checked, i);
    PickedMultiset(ids, c, i + 1, true);
    PickedMultiset(ids, checked, i + 1, true);
    Swap(multiset(PickedUpTo(ids, c, i, true)), Once(v, ids[i]), Once(checked[i], ids[i]));
  }

  /** A step past box i adds the same id under both settings. */
  lemma PickedSetPast<T>(ids: seq<T>, checked: seq<bool>, i: int, v: bool, n: nat)
    requires 0 <= i < n - 1 && n <= |ids| == |checked|
    requires SetLaw(ids, checked, i, v, n - 1)
    ensures SetLaw(ids, checked, i, v, n)
  {
    var c := checked[i := v];
    PickedMultiset(ids, c, n, true);
    PickedMultiset(ids, checked, n, true);
    assert c[n - 1] == checked[n - 1];
    AddBoth(multiset(PickedUpTo(ids, c, n - 1, true)), multiset(PickedUpTo(ids, checked, n - 1, true)),
      Once(checked[i], ids[i]), Once(v, ids[i]), Once(c[n - 1], ids[n - 1]));
  }

  /** Boxes that agree on the first n cards pick the same ids among them. */
  lemma {:induction false} PickedAgree<T>(ids: seq<T>, c: seq<bool>, d: seq<bool>, n: nat)
    requires n <= |ids| == |c| == |d| && forall j :: 0 <= j < n ==> c[j] == d[j]
    ensures PickedUpTo(ids, c, n, true) == PickedUpTo(ids, d, n, true)
  {
    if n > 0 {
      PickedAgree(ids, c, d, n - 1);
    }
  }

  lemma AddBoth<T>(ma: multiset<T>, mb: multiset<T>, p: multiset<T>, q: multiset<T>, r: multiset<T>)
    requires ma + p == mb + q
    ensures ma + r + p == mb + r + q
  {
    forall y ensures (ma + r + p)[y] == (mb + r + q)[y] {
      assert (ma + p)[y] == (mb + q)[y];
    }
  }

  lemma Swap<T>(m: multiset<T>, r: multiset<T>, s: multiset<T>)
    ensures m + r + s == m + s + r
  {
  }

  /** The multiset of the first n picked ids grows by card n - 1 when its box is on. */
  lemma PickedMultiset<T>(ids: seq<T>, checked: seq<bool>, n: nat, state: bool)
    requires 0 < n <= |ids| == |checked|
    ensures multiset(PickedUpTo(ids, checked, n, state)) ==
            multiset(PickedUpTo(ids, checked, n - 1, state)) + Once(checked[n - 1] == state, ids[n - 1])
  {
  }

  /** Setting one checkbox moves its id on or off the picked ones and leaves the others as they were. */
  lemma PickedSet<T>(ids: seq<T>, checked: seq<bool>, i: int, v: bool)
    requires |ids| == |checked| && 0 <= i < |ids|
    ensures multiset(Picked(ids, checked[i := v], true)) + Once(checked[i], ids[i]) ==
            multiset(Picked(ids, checked, true)) + Once(v, ids[i])
  {
    PickedUpToSet(ids, checked, i, v, |ids|);
  }

  /** With the first n checkboxes off, none of the first n cards is picked. */
  lemma {:induction false} NonePicked<T>(ids: seq<T>, checked: seq<bool>, n: nat)
    requires n <= |ids| == |checked| && forall j :: 0 <= j < n ==> !checked[j]
    ensures PickedUpTo(ids, checked, n, true) == []
  {
    if n > 0 {
      NonePicked(ids, checked, n - 1);
    }
  }

  /** One more box of a select-all pass appends its id when it was not checked before the pass. */
  lemma ClickedInOrder<T>(listed: seq<T>, ids: seq<T>, before: seq<bool>, i: int, prev: seq<T>, next: seq<T>)
    requires 0 <= i < |ids| == |before|
    requires prev == listed + PickedUpTo(ids, before, i, false)
    requires next == prev + (if before[i] then [] else [ids[i]])
    ensures next == listed + PickedUpTo(ids, before, i + 1, false)
  {
  }

  /** Every one of the first n cards is picked in exactly one of the two states. */
  lemma {:induction false} PickedEither<T>(ids: seq<T>, checked: seq<bool>, n: nat)
    requires n <= |ids| == |checked|
    ensures multiset(PickedUpTo(ids, checked, n, true)) + multiset(PickedUpTo(ids, checked, n, false)) == multiset(ids[..n])
  {
    if n > 0 {
      var x := ids[n - 1];
      PickedEither(ids, checked, n - 1);
      PickedMultiset(ids, checked, n, true);
      PickedMultiset(ids, checked, n, false);
      Regroup(multiset(PickedUpTo(ids, checked, n - 1, true)), multiset(PickedUpTo(ids, checked, n - 1, false)),
        multiset(ids[..n - 1]), x, checked[n - 1] == true, checked[n - 1] == false);
      TakeOneMore(ids, n);
    }
  }

  /** The first n elements are the first n - 1 with one more appended. */
  lemma TakeOneMore<T>(s: seq<T>, n: int)
    requires 0 < n <= |s|
    ensures multiset(s[..n]) == multiset(s[..n - 1]) + multiset{s[n - 1]}
  {
    assert s[..n] == s[..n - 1] + [s[n - 1]];
  }

  /** Adding x to exactly one of two parts adds it to their sum. */
  lemma Regroup<T>(t: multiset<T>, f: multiset<T>, m: multiset<T>, x: T, b: bool, c: bool)
    requires t + f == m && b != c
    ensures (t + Once(b, x)) + (f + Once(c, x)) == m + multiset{x}
  {
    forall y ensures ((t + Once(b, x)) + (f + Once(c, x)))[y] == (m + multiset{x})[y] {
      assert (t + f)[y] == m[y];
    }
  }

  /** With the first n checkboxes on, all of the first n cards are picked. */
  lemma {:induction false} AllPicked<T>(ids: seq<T>, checked: seq<bool>, n: nat)
    requires n <= |ids| == |checked| && forall j :: 0 <= j < n ==> checked[j]
    ensures PickedUpTo(ids, checked, n, true) == ids[..n]
  {
    if n > 0 {
      AllPicked(ids, checked, n - 1);
      assert ids[..n] == ids[..n - 1] + [ids[n - 1]];
    }
  }

  /** A list in step with the boxes, with the unchecked ids appended, is in step once every box is on. */
  lemma SelectAllKeepsStep<T>(listed: seq<T>, ids: seq<T>, before: seq<bool>, after: seq<bool>)
    requires |ids| == |before| == |after| && forall j :: 0 <= j < |after| ==> after[j]
    requires multiset(listed) == multiset(Picked(ids, before, true))
    ensures multiset(listed + Picked(ids, before, false)) == multiset(Picked(ids, after, true))
  {
    PickedEither(ids, before, |ids|);
    AllPicked(ids, after, |ids|);
    assert ids[..|ids|] == ids;
  }

  /** Unchecking an id on the list removes its first occurrence and keeps the others in order. */
  lemma UncheckPresent<T>(s: seq<T>, x: T)
    requires x in s
    ensures var i := IndexOf(s, x);
      0 <= i && x !in s[..i] && Splice(s, i, 1) == s[..i] + s[i + 1..]
    ensures multiset(Splice(s, IndexOf(s, x), 1)) == multiset(s) - multiset{x}
  {
    var i := IndexOf(s, x);
    var r := s[..i] + s[i + 1..];
    assert Splice(s, i, 1) == r;
    assert s == s[..i] + [x] + s[i + 1..];
    assert multiset(s) == multiset(s[..i]) + multiset{x} + multiset(s[i + 1..]);
    assert multiset(r) == multiset(s[..i]) + multiset(s[i + 1..]);
  }

  /** Unchecking an id that is not on the list makes `indexOf` -1, and `splice(-1, 1)` drops the last id. */
  lemma UncheckAbsent<T>(s: seq<T>, x: T)
    requires x !in s
    ensures Splice(s, IndexOf(s, x), 1) == (if s == [] then [] else s[..|s| - 1])
  {
  }

  /** Checking box i of a page in step with its list keeps them in step once its id is appended. */
  lemma CheckKeepsStep<T>(sel: seq<T>, ids: seq<T>, checked: seq<bool>, i: int)
    requires |ids| == |checked| && 0 <= i < |ids| && !checked[i]
    requires multiset(sel) == multiset(Picked(ids, checked, true))
    ensures multiset(sel + [ids[i]]) == multiset(Picked(ids, checked[i := true], true))
  {
    PickedSet(ids, checked, i, true);
    assert Once(true, ids[i]) == multiset{ids[i]} && Once(false, ids[i]) == multiset{};
  }

  /**
   * Unchecking box i of a page in step with its list: its id is on the list,
   * and splicing out its first occurrence keeps them in step.
   */
  lemma UncheckKeepsStep<T>(sel: seq<T>, ids: seq<T>, checked: seq<bool>, i: int)
    requires |ids| == |checked| && 0 <= i < |ids| && checked[i]
    requires multiset(sel) == multiset(Picked(ids, checked, true))
    ensures ids[i] in sel
    ensures multiset(Splice(sel, IndexOf(sel, ids[i]), 1)) == multiset(Picked(ids, checked[i := false], true))
  {
    var x := ids[i];
    var m := multiset(Picked(ids, checked[i := false], true));
    PickedSet(ids, checked, i, false);
    assert Once(true, x) == multiset{x} && Once(false, x) == multiset{};
    assert multiset(sel) == m + multiset{x};
    assert x in multiset(sel);
    UncheckPresent(sel, x);
    assert multiset(sel) - multiset{x} == m;
  }

  /**
   * The selection state of the folder page: the ids of the folder cards and
   * their checkboxes, in document order, `selectedFolders` and whether the
   * container carries the `selecting` class.
   */
  class FolderSelection {
    const ids: seq<string>
    var checked: seq<bool>
    var selectedFolders: seq<string>
    var selecting: bool

    /**
     * The list holds the ids of the checked cards (as a multiset: the order is
     * the order of the clicks), and `selecting` is on exactly when it is not
     * empty.
     */
    predicate Valid()
      reads this
    {
      |checked| == |ids| &&
      multiset(selectedFolders) == multiset(Picked(ids, checked, true)) &&
      (selecting <==> |selectedFolders| > 0)
    }

    /** A page whose cards are all unchecked. */
    constructor(cards: seq<string>)
      ensures Valid()
      ensures ids == cards && checked == seq(|cards|, j => false) && selectedFolders == [] && !selecting
    {
      ids := cards;
      checked := seq(|cards|, j => false);
      selectedFolders := [];
      selecting := false;
      NonePicked(cards, seq(|cards|, j => false), |cards|);
    }

    /**
     * The `select-folder` action for a card with the given id: a check appends
     * the id and turns `selecting` on when the list reaches length 1; an
     * uncheck splices out the id at `indexOf` and turns `selecting` off when
     * the list becomes empty.
     */
    method SelectFolder(id: string, isSelected: bool)
      modifies this`selectedFolders, this`selecting
      ensures isSelected ==> (selectedFolders == old(selectedFolders) + [id] &&
        selecting == (old(selecting) || |selectedFolders| == 1))
      ensures !isSelected ==> (selectedFolders == Splice(old(selectedFolders), IndexOf(old(selectedFolders), id), 1) &&
        selecting == (old(selecting) && |selectedFolders| != 0))
    {
      if isSelected {
        selectedFolders := selectedFolders + [id];
        if |selectedFolders| == 1 {
          selecting := true;
        }
      } else {
        selectedFolders := Splice(selectedFolders, IndexOf(selectedFolders, id), 1);
        if |selectedFolders| == 0 {
          selecting := false;
        }
      }
    }

    /** A click on the unchecked box of card i: the box turns on and its id is appended. */
    method Check(i: int)
      requires Valid() && 0 <= i < |ids| && !checked[i]
      modifies this`checked, this`selectedFolders, this`selecting
      ensures Valid()
      ensures checked == old(checked)[i := true]
      ensures selectedFolders == old(selectedFolders) + [ids[i]]
    {
      CheckKeepsStep(selectedFolders, ids, checked, i);
      checked := checked[i := true];
      SelectFolder(ids[i], true);
    }

    /** A click on the checked box of card i: the box turns off and the first occurrence of its id goes. */
    method Uncheck(i: int)
      requires Valid() && 0 <= i < |ids| && checked[i]
      modifies this`checked, this`selectedFolders, this`selecting
      ensures Valid()
      ensures checked == old(checked)[i := false]
      ensures ids[i] in old(selectedFolders)
      ensures multiset(selectedFolders) == multiset(old(selectedFolders)) - multiset{ids[i]}
      ensures selectedFolders == Splice(old(selectedFolders), IndexOf(old(selectedFolders), ids[i]), 1)
    {
      UncheckKeepsStep(selectedFolders, ids, checked, i);
      UncheckPresent(selectedFolders, ids[i]);
      checked := checked[i := false];
      SelectFolder(ids[i], false);
    }

    /** A click on the checkbox of card i: the box turns over, then the action runs with its new state. */
    method Click(i: int)
      requires Valid() && 0 <= i < |ids|
      modifies this`checked, this`selectedFolders, this`selecting
      ensures Valid()
      ensures checked == old(checked)[i := !old(checked)[i]]
      ensures checked[i] ==> selectedFolders == old(selectedFolders) + [ids[i]]
      ensures !checked[i] ==> (ids[i] in old(selectedFolders) &&
        selectedFolders == Splice(old(selectedFolders), IndexOf(old(selectedFolders), ids[i]), 1))
    {
      if checked[i] {
        Uncheck(i);
      } else {
        Check(i);
      }
    }

    /**
     * `selectAllFolders`: only the unchecked boxes are clicked, so their ids
     * are appended in document order, and the page stays in step.
     */
    method SelectAll()
      requires Valid()
      modifies this`checked, this`selectedFolders, this`selecting
      ensures Valid()
      ensures forall j :: 0 <= j < |checked| ==> checked[j]
      ensures selectedFolders == old(selectedFolders) + Picked(ids, old(checked), false)
    {
      ghost var before, listed := checked, selectedFolders;
      CheckEveryClear();
      SelectAllKeepsStep(listed, ids, before, checked);
    }

    /** The `forEach` of `selectAllFolders`: every box that is not checked yet is clicked, in document order. */
    method CheckEveryClear()
      requires |checked| == |ids| && (selecting <==> |selectedFolders| > 0)
      modifies this`checked, this`selectedFolders, this`selecting
      ensures |checked| == |ids| && (selecting <==> |selectedFolders| > 0)
      ensures forall j :: 0 <= j < |checked| ==> checked[j]
      ensures selectedFolders == old(selectedFolders) + Picked(ids, old(checked), false)
    {
      ghost var before, listed := checked, selectedFolders;
      var i := 0;
      while i < |ids|
        invariant 0 <= i <= |ids| && |checked| == |ids|
        invariant selecting <==> |selectedFolders| > 0
        invariant forall j :: 0 <= j < i ==> checked[j]
        invariant forall j :: i <= j < |ids| ==> checked[j] == before[j]
        invariant selectedFolders == listed + PickedUpTo(ids, before, i, false)
      {
        ghost var prev := selectedFolders;
        CheckIfClear(i);
        ClickedInOrder(listed, ids, before, i, prev, selectedFolders);
        i := i + 1;
      }
    }

    /** One box of `selectAllFolders`: it is clicked only when it is not checked yet. */
    method CheckIfClear(i: int)
      requires |checked| == |ids| && 0 <= i < |ids| && (selecting <==> |selectedFolders| > 0)
      modifies this`checked, this`selectedFolders, this`selecting
      ensures selecting <==> |selectedFolders| > 0
      ensures checked == old(checked)[i := true]
      ensures selectedFolders == old(selectedFolders) + (if old(checked)[i] then [] else [ids[i]])
    {
      if !checked[i] {
        checked := checked[i := true];
        SelectFolder(ids[i], true);
      } else {
        assert checked == checked[i := true];
        assert selectedFolders == selectedFolders + [];
      }
    }

    /** `deselectAllFolders`: only the checked boxes are clicked, which empties the list. */
    method DeselectAll()
      requires Valid()
      modifies this`checked, this`selectedFolders, this`selecting
      ensures Valid()
      ensures forall j :: 0 <= j < |checked| ==> !checked[j]
      ensures selectedFolders == [] && !selecting
    {
      var i := 0;
      while i < |ids|
        invariant 0 <= i <= |ids| && Valid()
        invariant forall j :: 0 <= j < i ==> !checked[j]
      {
        if checked[i] {
          Uncheck(i);
        }
        i := i + 1;
      }
      NonePicked(ids, checked, |ids|);
    }
  }

  // ------------------------------------------------------------ folder form

  /** The default image, as the source assigns it to the form's `img.src`. */
  const NoImage := "./imgs/no-image.png"
  const FilePrefix := "file:///"

  /**
   * What reading `img.src` gives after `src` was set to the text a: the URL
   * the page resolves it to. The page is `file:///` + dir + `/index.html`
   * (Electron's `loadFile`), so `./x` becomes `file:///` + dir + `/x` and an
   * absolute file path `/x` becomes `file:///x`; a URL stays as it is.
   */
  function SrcOf(dir: string, a: string): string {
    if StartsWith(a, "./") then FilePrefix + dir + "/" + a[2..]
    else if |a| > 0 && a[0] == '/' then "file://" + a
    else a
  }

  /** The white space `String.prototype.trim` removes (the common characters of it). */
  predicate IsWhite(c: char) {
    c == ' ' || c == '\t' || c == '\n' || c == '\r' || c == '\U{B}' || c == '\U{C}' ||
    c == '\U{A0}' || c == '\U{FEFF}' || c == '\U{2028}' || c == '\U{2029}'
  }

  function TrimStart(s: string): string {
    if s != [] && IsWhite(s[0]) then TrimStart(s[1..]) else s
  }

  function TrimEnd(s: string): string {
    if s != [] && IsWhite(s[|s| - 1]) then TrimEnd(s[..|s| - 1]) else s
  }

  /** `s.trim()`: the text without white space at either end. */
  function Trim(s: string): string {
    TrimEnd(TrimStart(s))
  }

  /** pat occurs in s at position j. */
  predicate IsAt(s: string, pat: string, j: int) {
    0 <= j && j + |pat| <= |s| && s[j..j + |pat|] == pat
  }

  /** `s.indexOf(pat, from)`: the first position from `from` on at which pat occurs, or -1. */
  function Find(s: string, pat: string, from: nat): (i: int)
    ensures i == -1 || (from <= i && IsAt(s, pat, i))
    ensures forall j :: from <= j && (i == -1 || j < i) ==> !IsAt(s, pat, j)
    decreases |s| - from
  {
    if from + |pat| > |s| then -1
    else if s[from..from + |pat|] == pat then from
    else Find(s, pat, from + 1)
  }

  /** `s.split(sep)[1]` for a nonempty separator: the piece after the first separator; None is `undefined`. */
  function SecondPiece(s: string, sep: string): Option<string>
    requires sep != []
  {
    var i := Find(s, sep, 0);
    if i < 0 then None
    else
      var j := Find(s, sep, i + |sep|);
      Some(if j < 0 then s[i + |sep|..] else s[i + |sep|..j])
  }

  /** The image of a save: the chosen file's path, else the shown image's source after `file:///`. */
  function ImageOf(file: Option<string>, src: string): Option<string> {
    if file.Some? then file else SecondPiece(src, FilePrefix)
  }

  datatype FolderData = FolderData(image: Option<string>, title: string, description: string)

  /** What `handleFolderData` hands on: an update of the folder with the id, or a new folder. */
  datatype FolderRequest = UpdateFolder(id: string, data: FolderData) | CreateFolder(data: FolderData)

  /** `handleFolderData`: an update when there is a folder id (an empty one is falsy), a creation otherwise. */
  function HandleFolderData(data: FolderData, id: Option<string>): (r: FolderRequest)
    ensures r.data == data
    ensures r.UpdateFolder? <==> id.Some? && id.value != ""
    ensures r.UpdateFolder? ==> r.id == id.value
  {
    if id.Some? && id.value != "" then UpdateFolder(id.value, data) else CreateFolder(data)
  }

  /** What an edit button shows of a folder card: its id, image source, title and description text. */
  datatype FolderCard = FolderCard(id: string, image: string, title: string, description: string)

  /** The add-folder form: its fields, its `data-folder-id`, whether it is shown, and the requests it has made. */
  class FolderForm {
    /** The directory of the page, after `file:///`. */
    const pageDir: string
    var folderId: Option<string>
    var image: string
    var file: Option<string>
    var title: string
    var description: string
    var titleInvalid: bool
    var shown: bool
    var requests: seq<FolderRequest>

    /** A hidden form never carries a folder id, so opening it to add a folder cannot update one. */
    predicate Valid()
      reads this
    {
      !shown ==> folderId == None
    }

    /** A hidden, empty form of the page in dir, showing the default image. */
    constructor(dir: string)
      ensures Valid() && pageDir == dir
      ensures folderId == None && image == SrcOf(dir, NoImage) && file == None && title == "" && description == ""
      ensures !titleInvalid && !shown && requests == []
    {
      pageDir := dir;
      folderId, image, file := None, SrcOf(dir, NoImage), None;
      title, description := "", "";
      titleInvalid, shown := false, false;
      requests := [];
    }

    /** `showFolderForm`: an edit fills the form from the card (texts trimmed) and records its id. */
    method Show(card: Option<FolderCard>)
      requires Valid()
      modifies this`folderId, this`image, this`title, this`description, this`shown
      ensures Valid() && shown
      ensures card.Some? ==> (folderId == Some(card.value.id) && image == card.value.image &&
        title == Trim(card.value.title) && description == Trim(card.value.description))
      ensures card.None? ==> (folderId == old(folderId) && image == old(image) &&
        title == old(title) && description == old(description))
    {
      if card.Some? {
        Fill(card.value);
      }
      shown := true;
    }

    /** The edit branch of `showFolderForm`: the card's id, image and trimmed texts go into the form. */
    method Fill(card: FolderCard)
      modifies this`folderId, this`image, this`title, this`description
      ensures folderId == Some(card.id) && image == card.image
      ensures title == Trim(card.title) && description == Trim(card.description)
    {
      var t, d := Trim(card.title), Trim(card.description);
      folderId, image, title, description := Some(card.id), card.image, t, d;
    }

    /** The image input: the picked file's path is shown, or the default image when none is picked. */
    method ChooseImage(picked: Option<string>)
      modifies this`file, this`image
      ensures file == picked && image == SrcOf(pageDir, if picked.Some? then picked.value else NoImage)
    {
      file := picked;
      image := SrcOf(pageDir, if picked.Some? then picked.value else NoImage);
    }

    /** Typing a title clears its invalid mark. */
    method InputTitle(text: string)
      modifies this`title, this`titleInvalid
      ensures title == text && !titleInvalid
    {
      title, titleInvalid := text, false;
    }

    /** `handleFolderForm("close")`: the fields are reset, the folder id removed and the form hidden; a picked file stays. */
    method Close()
      modifies this`folderId, this`image, this`title, this`description, this`titleInvalid, this`shown
      ensures Valid()
      ensures image == SrcOf(pageDir, NoImage) && title == "" && description == "" && !titleInvalid
      ensures folderId == None && !shown
    {
      image, title, description, titleInvalid := SrcOf(pageDir, NoImage), "", "", false;
      folderId, shown := None, false;
    }

    /**
     * `handleFolderForm("save")`: an empty title is marked invalid and nothing
     * else happens; otherwise the data goes to `handleFolderData`, whose
     * handlers click the close button, and the form ends closed.
     */
    method Save()
      requires Valid()
      modifies this`folderId, this`image, this`title, this`description, this`titleInvalid, this`shown, this`requests
      ensures Valid()
      ensures old(title) == "" ==> (titleInvalid && requests == old(requests) && shown == old(shown) &&
        folderId == old(folderId) && image == old(image) && title == old(title) && description == old(description))
      ensures old(title) != "" ==>
        requests == old(requests) + [HandleFolderData(FolderData(ImageOf(file, old(image)), old(title), old(description)), old(folderId))] &&
        image == SrcOf(pageDir, NoImage) && title == "" && description == "" && !titleInvalid && folderId == None && !shown
    {
      var data := FolderData(ImageOf(file, image), title, description);
      if data.title == "" {
        titleInvalid := true;
        return;
      }
      requests := requests + [HandleFolderData(data, folderId)];
      Close();
      folderId, shown := None, false;
    }
  }

  // ------------------------------------------------------------ laws

  /** An edit of a card with an id saves as an update of that folder; an add saves as a creation. */
  lemma SaveDispatch(data: FolderData, card: FolderCard)
    ensures card.id != "" ==> HandleFolderData(data, Some(card.id)) == UpdateFolder(card.id, data)
    ensures HandleFolderData(data, None) == CreateFolder(data)
  {
  }

  /** A card image served from disk saves as its path; the default image saves as no image. */
  lemma ImageOfSource(p: string)
    requires forall j :: !IsAt(p, FilePrefix, j)
    ensures ImageOf(None, FilePrefix + p) == Some(p)
  {
    var s := FilePrefix + p;
    var n := |FilePrefix|;
    assert s[..n] == FilePrefix;
    assert IsAt(s, FilePrefix, 0);
    forall j | n <= j ensures IsAt(s, FilePrefix, j) == IsAt(p, FilePrefix, j - n) {
      if j + n <= |s| {
        assert s[j..j + n] == p[j - n..j];
      }
    }
    assert s[n..] == p;
  }

  /**
   * With no file picked, the default image saves as its path on disk: the
   * page directory followed by `/imgs/no-image.png`, not `undefined`.
   */
  lemma DefaultImageSource(dir: string)
    requires forall j :: !IsAt(dir + "/imgs/no-image.png", FilePrefix, j)
    ensures ImageOf(None, SrcOf(dir, NoImage)) == Some(dir + "/imgs/no-image.png")
  {
    assert StartsWith(NoImage, "./");
    assert NoImage[2..] == "imgs/no-image.png";
    assert SrcOf(dir, NoImage) == FilePrefix + (dir + "/imgs/no-image.png");
    ImageOfSource(dir + "/imgs/no-image.png");
  }

  /** Trimming keeps the text between the first and last non-white characters and removes only white space. */
  lemma TrimShape(s: string)
    ensures var r := Trim(s); r == [] || (!IsWhite(r[0]) && !IsWhite(r[|r| - 1]))
    ensures exists a, b :: (0 <= a <= b <= |s| && Trim(s) == s[a..b] &&
      (forall j :: 0 <= j < a ==> IsWhite(s[j])) && (forall j :: b <= j < |s| ==> IsWhite(s[j])))
  {
    var t := TrimStart(s);
    TrimStartShape(s);
    TrimEndShape(t);
    var a := |s| - |t|;
    var r := TrimEnd(t);
    assert r == s[a..a + |r|];
    forall j | a + |r| <= j < |s| ensures IsWhite(s[j]) {
      assert s[j] == t[j - a];
    }
  }

  /** Trimming the start drops a run of white space and stops at the first other character. */
  lemma {:induction false} TrimStartShape(s: string)
    ensures var r := TrimStart(s); |r| <= |s| && r == s[|s| - |r|..]
    ensures var r := TrimStart(s); r == [] || !IsWhite(r[0])
    ensures var r := TrimStart(s); forall j :: 0 <= j < |s| - |r| ==> IsWhite(s[j])
  {
    if s != [] && IsWhite(s[0]) {
      TrimStartShape(s[1..]);
      var r := TrimStart(s[1..]);
      assert s[1..][|s| - 1 - |r|..] == s[|s| - |r|..];
      forall j | 0 <= j < |s| - |r| ensures IsWhite(s[j]) {
        if j > 0 { assert s[j] == s[1..][j - 1]; }
      }
    }
  }

  /** Trimming the end drops a run of white space and stops at the last other character. */
  lemma {:induction false} TrimEndShape(s: string)
    ensures var r := TrimEnd(s); |r| <= |s| && r == s[..|r|]
    ensures var r := TrimEnd(s); r == [] || !IsWhite(r[|r| - 1])
    ensures var r := TrimEnd(s); forall j :: |r| <= j < |s| ==> IsWhite(s[j])
  {
    if s != [] && IsWhite(s[|s| - 1]) {
      TrimEndShape(s[..|s| - 1]);
      var r := TrimEnd(s[..|s| - 1]);
      assert s[..|s| - 1][..|r|] == s[..|r|];
      forall j | |r| <= j < |s| ensures IsWhite(s[j]) {
        if j < |s| - 1 { assert s[j] == s[..|s| - 1][j]; }
      }
    }
  }
}
