/**
 * Span edits (change.ts): an insert, remove or replace of text at an offset
 * of one file. A change is a value fixed by its constructor; applying it is a
 * read-modify-write of one entry of the file store.
 */
module Changes {
  import opened Util

  /**
   * The three kinds of change. `order` and `description` hold what the
   * constructors store after filling in their defaults.
   */
  datatype Change =
    | InsertChange(path: string, pos: int, toAdd: string, order: int, description: string)
    | RemoveChange(path: string, pos: int, toRemove: string, order: int, description: string)
    | ReplaceChange(path: string, pos: int, oldText: string, newText: string, order: int, description: string)

  /** `order ? order : 1`: an omitted or zero order becomes 1. */
  function DefaultOrder(order: Option<int>): (o: int)
    ensures o != 0
    ensures order.None? ==> o == 1
    ensures order.Some? ==> o == (if order.value == 0 then 1 else order.value)
  {
    if order.Some? && order.value != 0 then order.value else 1
  }

  /** `description ? description : generated`: an omitted or empty description is generated. */
  function DefaultDescription(description: Option<string>, generated: string): (d: string)
    ensures description.None? ==> d == generated
    ensures description.Some? ==> d == (if description.value == [] then generated else description.value)
  {
    if description.Some? && description.value != [] then description.value else generated
  }

  function NewInsertChange(path: string, pos: int, toAdd: string,
                           order: Option<int>, description: Option<string>): Change
  {
    InsertChange(path, pos, toAdd, DefaultOrder(order),
      DefaultDescription(description,
        "Inserted " + toAdd + " into position " + IntToString(pos) + " of " + path))
  }

  function NewRemoveChange(path: string, pos: int, toRemove: string,
                           order: Option<int>, description: Option<string>): Change
  {
    RemoveChange(path, pos, toRemove, DefaultOrder(order),
      DefaultDescription(description,
        "Removed " + toRemove + " into position " + IntToString(pos) + " of " + path))
  }

  function NewReplaceChange(path: string, pos: int, oldText: string, newText: string,
                            order: Option<int>, description: Option<string>): Change
  {
    ReplaceChange(path, pos, oldText, newText, DefaultOrder(order),
      DefaultDescription(description,
        "Replaced " + oldText + " into position " + IntToString(pos) + " of " + path
        + " with " + newText))
  }

  /** Constructing without `order` or `description` fills in 1 and the generated text. */
  lemma ConstructorDefaults(path: string, pos: int, text: string, other: string)
    ensures NewInsertChange(path, pos, text, None, None).order == 1
    ensures NewInsertChange(path, pos, text, None, None).description
         == "Inserted " + text + " into position " + IntToString(pos) + " of " + path
    ensures NewRemoveChange(path, pos, text, None, None).order == 1
    ensures NewReplaceChange(path, pos, text, other, None, None).order == 1
  {
  }

  /** InsertChange.apply: `content.substring(0, pos) + toAdd + content.substring(pos)`. */
  function InsertText(content: string, pos: int, toAdd: string): (r: string)
    ensures 0 <= pos <= |content| ==> r == content[..pos] + toAdd + content[pos..]
    ensures |r| == |content| + |toAdd|
  {
    JsSubstring(content, 0, pos) + toAdd + JsSubstringFrom(content, pos)
  }

  /** RemoveChange.apply: `content.substring(0, pos) + content.substring(pos + toRemove.length)`. */
  function RemoveText(content: string, pos: int, toRemove: string): (r: string)
    ensures 0 <= pos && pos + |toRemove| <= |content| ==>
              r == content[..pos] + content[pos + |toRemove|..] && |r| == |content| - |toRemove|
  {
    JsSubstring(content, 0, pos) + JsSubstringFrom(content, pos + |toRemove|)
  }

  /** ReplaceChange.apply: `content.substring(0, pos) + newText + content.substring(pos + oldText.length)`. */
  function ReplaceText(content: string, pos: int, oldText: string, newText: string): (r: string)
    ensures 0 <= pos && pos + |oldText| <= |content| ==>
              r == content[..pos] + newText + content[pos + |oldText|..]
              && |r| == |content| - |oldText| + |newText|
  {
    JsSubstring(content, 0, pos) + newText + JsSubstringFrom(content, pos + |oldText|)
  }

  /** The new content of the change's file. */
  function Splice(c: Change, content: string): string
  {
    match c
    case InsertChange(_, pos, toAdd, _, _) => InsertText(content, pos, toAdd)
    case RemoveChange(_, pos, toRemove, _, _) => RemoveText(content, pos, toRemove)
    case ReplaceChange(_, pos, oldText, newText, _, _) => ReplaceText(content, pos, oldText, newText)
  }

  /** Inserting nothing leaves the text unchanged, wherever the offset points. */
  lemma InsertNothingIsNoOp(content: string, pos: int)
    ensures InsertText(content, pos, []) == content
  {
    var c := Clamp(pos, |content|);
    assert content[..c] + content[c..] == content;
  }

  /** A negative offset clamps to 0, so the text goes in front. */
  lemma InsertAtNegativeOffset(content: string, pos: int, toAdd: string)
    requires pos < 0
    ensures InsertText(content, pos, toAdd) == toAdd + content
  {
  }

  /** Removing nothing leaves the text unchanged, wherever the offset points. */
  lemma RemoveNothingIsNoOp(content: string, pos: int)
    ensures RemoveText(content, pos, []) == content
  {
    var c := Clamp(pos, |content|);
    assert content[..c] + content[c..] == content;
  }

  /** Only the length of `toRemove` matters: the removed text is never compared with it. */
  lemma RemoveIgnoresRemovedText(content: string, pos: int, a: string, b: string)
    requires |a| == |b|
    ensures RemoveText(content, pos, a) == RemoveText(content, pos, b)
  {
  }

  /** A replace of nothing is an insert; a replace by nothing is a remove. */
  lemma ReplaceSpecialCases(content: string, pos: int, oldText: string, newText: string)
    ensures ReplaceText(content, pos, [], newText) == InsertText(content, pos, newText)
    ensures ReplaceText(content, pos, oldText, []) == RemoveText(content, pos, oldText)
  {
  }

  /** Removing what was just inserted at the same in-range offset restores the text. */
  lemma InsertThenRemove(content: string, pos: int, t: string)
    requires 0 <= pos <= |content|
    ensures RemoveText(InsertText(content, pos, t), pos, t) == content
  {
    var s := InsertText(content, pos, t);
    assert s[..pos] == content[..pos];
    assert s[pos + |t|..] == content[pos..];
  }

  /** The insert cases of change.spec.js: offset 6 of "hello" clamps to its end. */
  lemma InsertExamples()
    ensures InsertText("hello", 6, " world!") == "hello world!"
    ensures InsertText("hello", -6, " world!") == " world!hello"
  {
    assert InsertText("hello", 6, " world!") == "hello" + " world!";
    InsertAtNegativeOffset("hello", -6, " world!");
  }

  /** The remove case of change.spec.js. */
  lemma RemoveExample()
    ensures RemoveText("import * as foo from \"./bar\"", 9, "as foo") == "import *  from \"./bar\""
  {
    var s := "import * as foo from \"./bar\"";
    assert s[..9] == "import * ";
    assert s[15..] == " from \"./bar\"";
  }

  /** The replace case of change.spec.js. */
  lemma ReplaceExample()
    ensures ReplaceText("import * as foo from \"./bar\"", 7, "* as foo", "{ fooComponent }")
         == "import { fooComponent } from \"./bar\""
  {
    ReplaceExampleCuts();
    ReplaceExampleGlue();
  }

  lemma ReplaceExampleCuts()
    ensures "import * as foo from \"./bar\""[..7] == "import "
    ensures "import * as foo from \"./bar\""[15..] == " from \"./bar\""
  {
  }

  lemma ReplaceExampleGlue()
    ensures "import " + "{ fooComponent }" + " from \"./bar\"" == "import { fooComponent } from \"./bar\""
  {
    assert "import " + "{ fooComponent }" == "import { fooComponent }";
  }

  /** The file system, one text per path. */
  class FileStore {
    var files: map<string, string>

    constructor (files: map<string, string>)
      ensures this.files == files
    {
      this.files := files;
    }
  }

  /** The store after applying `c`: only the entry at `c.path` changes; a missing file is an IOError. */
  function ApplyTo(files: map<string, string>, c: Change): (r: Result<map<string, string>>)
    ensures r.Failure? <==> c.path !in files
    ensures r.Failure? ==> r.error == IOError(c.path)
    ensures r.Success? ==> r.value.Keys == files.Keys
    ensures r.Success? ==> r.value[c.path] == Splice(c, files[c.path])
    ensures r.Success? ==> forall p :: p in files && p != c.path ==> r.value[p] == files[p]
  {
    if c.path !in files then Failure(IOError(c.path))
    else Success(files[c.path := Splice(c, files[c.path])])
  }

  /** `apply()`: read the file, splice, write it back. */
  method Apply(c: Change, store: FileStore) returns (outcome: Result<()>)
    modifies store
    ensures outcome.Success? <==> c.path in old(store.files)
    ensures outcome.Success? ==> store.files == ApplyTo(old(store.files), c).value
    ensures outcome.Failure? ==> outcome.error == IOError(c.path) && store.files == old(store.files)
  {
    if c.path !in store.files {
      return Failure(IOError(c.path));
    }
    var content := store.files[c.path];
    content := Splice(c, content);
    store.files := store.files[c.path := content];
    return Success(());
  }
}
