/** pdf/DocumentWrapper: holds a loaded PDF and reloads it from its file when a fresh copy is
  * asked for after the previous copy has been handed out. Loading is an oracle: the n-th load of
  * the file produces document n, so "a newly loaded document" means a larger number. */
module PdfDocumentWrapper {
  import opened Wrappers

  class DocumentWrapper {
    var inputFile: string
    /** The current document, or None for Java's null. */
    var document: Option<nat>
    var needRefresh: bool
    /** How many times the file has been loaded; the latest load is document `loads`. */
    var loads: nat
    /** The documents that have been closed. */
    var closed: set<nat>

    /** After construction a document is always held and it is the latest load. */
    ghost predicate Valid()
      reads this
    {
      loads >= 1 && document == Some(loads) && (forall d | d in closed :: 1 <= d <= loads)
    }

    /** The constructor loads the file exactly once and leaves needRefresh false. */
    constructor (inputFile: string)
      ensures Valid()
      ensures this.inputFile == inputFile
      ensures loads == 1 && document == Some(1) && !needRefresh && closed == {}
    {
      this.inputFile := inputFile;
      document := None;
      loads := 0;
      closed := {};
      needRefresh := true;
      new;
      var _ := GetFreshDocument();
      needRefresh := false;
    }

    /** getFreshDocument: when needRefresh is set, the held document (if any) is closed and the file
      * is loaded again; otherwise the held document is kept. Either way needRefresh ends up true. */
    method GetFreshDocument() returns (d: Option<nat>)
      requires forall c | c in closed :: c <= loads
      requires document.Some? ==> document.value <= loads
      modifies this
      ensures needRefresh
      ensures inputFile == old(inputFile)
      ensures old(needRefresh) ==>
        && loads == old(loads) + 1 && document == Some(loads)
        && closed == old(closed) + (if old(document).Some? then {old(document).value} else {})
      ensures !old(needRefresh) ==>
        loads == old(loads) && document == old(document) && closed == old(closed)
      ensures d == document
      ensures forall c | c in closed :: c <= loads
    {
      if needRefresh {
        if document.Some? {
          closed := closed + {document.value};
          document := None;
        }
        loads := loads + 1;
        document := Some(loads);
      }
      needRefresh := true;
      return document;
    }

    /** The Lombok setter of needRefresh. */
    method SetNeedRefresh(value: bool)
      modifies this
      ensures needRefresh == value
      ensures document == old(document) && loads == old(loads) && closed == old(closed) && inputFile == old(inputFile)
    {
      needRefresh := value;
    }

    /** close: closes the held document (a null document would throw NullPointerException,
      * which Valid() rules out). */
    method Close()
      requires Valid()
      modifies this
      ensures closed == old(closed) + {old(document).value}
      ensures document == old(document) && loads == old(loads) && needRefresh == old(needRefresh)
      ensures Valid()
    {
      closed := closed + {document.value};
    }
  }

  /** The life of a wrapper: the first getFreshDocument after construction returns the document
    * the constructor loaded, each later call returns a newly loaded one and closes the one before,
    * and after setNeedRefresh(false) the next call reuses the held document. */
  method RefreshSequence(file: string) returns (first: Option<nat>, second: Option<nat>, third: Option<nat>, reused: Option<nat>)
    ensures first == Some(1) && second == Some(2) && third == Some(3) && reused == Some(3)
  {
    var wrapper := new DocumentWrapper(file);
    first := wrapper.GetFreshDocument();
    second := wrapper.GetFreshDocument();
    assert wrapper.closed == {1};
    third := wrapper.GetFreshDocument();
    assert wrapper.closed == {1, 2};
    wrapper.SetNeedRefresh(false);
    reused := wrapper.GetFreshDocument();
    wrapper.Close();
    assert wrapper.closed == {1, 2, 3};
  }
}
