/** The event walk shared by `extract_certificates` and `main`: the XML
    tokenizer is an abstract sequence of reader items, and the walk keeps the
    local name of the "current element", collecting every character event
    seen while that name is `TSPService`. */
module EventScan {
  import opened Wrappers

  /** The events of `xml::reader::XmlEvent` that the walk tells apart;
      every other event (declarations, comments, whitespace, CDATA, ...) is
      `OtherEvent`. */
  datatype XmlEvent =
    | StartElement(localName: string)
    | Characters(text: string)
    | EndElement
    | OtherEvent

  /** One item produced by the reader: an event, or the error that ends
      the walk (`event?`). */
  datatype ReaderItem = Event(event: XmlEvent) | ReadError(detail: string)

  const ServiceElement := "TSPService"

  /** `current_element` and the `elements` collected so far. */
  datatype ScanState = ScanState(current: string, elements: seq<string>)

  /** One turn of the `for event in parser` loop on an event. */
  function Step(st: ScanState, e: XmlEvent): (r: ScanState)
    ensures st.elements <= r.elements && |r.elements| <= |st.elements| + 1
    ensures |r.elements| == |st.elements| + 1 <==> e.Characters? && st.current == ServiceElement
    ensures |r.elements| == |st.elements| + 1 ==> r.elements[|st.elements|] == e.text
    ensures e.Characters? || e.OtherEvent? ==> r.current == st.current
  {
    match e
    case StartElement(name) => ScanState(name, st.elements)
    case Characters(text) =>
      if st.current == ServiceElement then ScanState(st.current, st.elements + [text]) else st
    case EndElement => ScanState("", st.elements)
    case OtherEvent => st
  }

  /** The walk as a left fold over the reader items; the first reader error
      ends it. */
  function Scan(items: seq<ReaderItem>): (r: Result<ScanState, string>)
    ensures r.Success? ==> |r.value.elements| <= |items|
    ensures r.Failure? ==> exists k :: 0 <= k < |items| && items[k] == ReadError(r.error)
    decreases |items|
  {
    if items == [] then Success(ScanState("", []))
    else
      var init := items[..|items| - 1];
      assert forall k :: 0 <= k < |init| ==> init[k] == items[k];
      match Scan(init)
      case Failure(d) => Failure(d)
      case Success(st) =>
        match items[|items| - 1]
        case ReadError(d) => Failure(d)
        case Event(e) => Success(Step(st, e))
  }

  /** The `for event in parser` loop, which `extract_certificates` and
      `main` each contain a copy of. */
  method WalkEvents(xml: seq<ReaderItem>) returns (r: Result<ScanState, string>)
    ensures r == Scan(xml)
  {
    var currentElement := "";
    var elements: seq<string> := [];
    var i := 0;
    while i < |xml|
      invariant 0 <= i <= |xml|
      invariant Scan(xml[..i]) == Success(ScanState(currentElement, elements))
    {
      ScanExtends(xml, i);
      match xml[i] {
        case ReadError(d) =>
          FailureSticks(xml, i + 1, |xml|);
          assert xml[..|xml|] == xml;
          return Failure(d);
        case Event(e) =>
          match e {
            case StartElement(name) => currentElement := name;
            case Characters(content) =>
              if currentElement == ServiceElement {
                elements := elements + [content];
              }
            case EndElement => currentElement := "";
            case OtherEvent =>
          }
      }
      i := i + 1;
    }
    assert xml[..i] == xml;
    return Success(ScanState(currentElement, elements));
  }

  // ---------------------------------------------------------------------------
  // An independent description of what the walk collects

  /** A start or end tag: the events that change the current element. */
  predicate IsBoundary(item: ReaderItem) {
    item.Event? && (item.event.StartElement? || item.event.EndElement?)
  }

  ghost predicate NoBoundaryBetween(items: seq<ReaderItem>, j: int, k: int)
    requires 0 <= j <= k <= |items|
  {
    forall m :: j < m < k ==> !IsBoundary(items[m])
  }

  /** The closest start or end tag before position `k` is `<TSPService>`. */
  ghost predicate UnderService(items: seq<ReaderItem>, k: int)
    requires 0 <= k <= |items|
  {
    exists j :: 0 <= j < k && items[j] == Event(StartElement(ServiceElement))
                && NoBoundaryBetween(items, j, k)
  }

  /** The item at `k` is character content directly under `TSPService`. */
  ghost predicate Selected(items: seq<ReaderItem>, k: int)
    requires 0 <= k < |items|
  {
    items[k].Event? && items[k].event.Characters? && UnderService(items, k)
  }

  /** The texts of the selected items among the first `k`, in order. */
  ghost function Gather(items: seq<ReaderItem>, k: int): seq<string>
    requires 0 <= k <= |items|
  {
    if k == 0 then []
    else Gather(items, k - 1) + (if Selected(items, k - 1) then [items[k - 1].event.text] else [])
  }

  predicate HasReadError(items: seq<ReaderItem>) {
    exists k :: 0 <= k < |items| && items[k].ReadError?
  }

  // ---------------------------------------------------------------------------
  // Lemmas

  /** One more item extends the fold by one step. */
  lemma ScanExtends(items: seq<ReaderItem>, k: int)
    requires 0 <= k < |items|
    ensures Scan(items[..k + 1]) ==
      match Scan(items[..k])
      case Failure(d) => Failure(d)
      case Success(st) =>
        match items[k]
        case ReadError(d) => Failure(d)
        case Event(e) => Success(Step(st, e))
  {
    assert items[..k + 1][..k] == items[..k];
  }

  lemma {:induction false} FailureSticks(items: seq<ReaderItem>, j: int, k: int)
    requires 0 <= j <= k <= |items|
    requires Scan(items[..j]).Failure?
    ensures Scan(items[..k]) == Scan(items[..j])
    decreases k - j
  {
    if j < k {
      ScanExtends(items, j);
      FailureSticks(items, j + 1, k);
    }
  }

  /** The walk fails exactly when some item is a reader error, and then with
      the first such error. */
  lemma {:induction false} ScanFailsAtFirstError(items: seq<ReaderItem>, k: int)
    requires 0 <= k <= |items|
    ensures Scan(items[..k]).Failure? <==> HasReadError(items[..k])
    ensures forall m :: 0 <= m < k && items[m].ReadError? && !HasReadError(items[..m])
               ==> Scan(items[..k]) == Failure(items[m].detail)
  {
    if k > 0 {
      ScanFailsAtFirstError(items, k - 1);
      ScanExtends(items, k - 1);
      assert items[..k][..k - 1] == items[..k - 1];
      if HasReadError(items[..k - 1]) {
        var m :| 0 <= m < k - 1 && items[..k - 1][m].ReadError?;
        assert items[..k][m].ReadError?;
      }
      if items[k - 1].ReadError? {
        assert items[..k][k - 1].ReadError?;
      }
      forall m | 0 <= m < k && items[m].ReadError? && !HasReadError(items[..m])
        ensures Scan(items[..k]) == Failure(items[m].detail)
      {
        if m < k - 1 {
          assert items[..k - 1][m].ReadError?;
        } else {
          assert items[..m] == items[..k - 1];
        }
      }
    }
  }

  /** A reader error makes the whole walk fail with the first error. */
  lemma ReadErrorAborts(items: seq<ReaderItem>, m: int)
    requires 0 <= m < |items| && items[m].ReadError? && !HasReadError(items[..m])
    ensures Scan(items) == Failure(items[m].detail)
  {
    ScanFailsAtFirstError(items, |items|);
    assert items[..|items|] == items;
  }

  /** Without a reader error the walk succeeds. */
  lemma ScanSucceedsWithoutError(items: seq<ReaderItem>)
    requires !HasReadError(items)
    ensures Scan(items).Success?
  {
    ScanFailsAtFirstError(items, |items|);
    assert items[..|items|] == items;
  }

  /** The current element is `TSPService` exactly when the closest
      preceding start or end tag is `<TSPService>`. */
  lemma {:induction false} CurrentTracksService(items: seq<ReaderItem>, k: int)
    requires 0 <= k <= |items|
    requires Scan(items[..k]).Success?
    ensures Scan(items[..k]).value.current == ServiceElement <==> UnderService(items, k)
  {
    if k > 0 {
      ScanExtends(items, k - 1);
      if Scan(items[..k - 1]).Failure? {
        assert false;
      }
      CurrentTracksService(items, k - 1);
      var item := items[k - 1];
      if item.Event? && item.event.StartElement? {
        if item.event.localName == ServiceElement {
          assert NoBoundaryBetween(items, k - 1, k);
        }
      } else if item.Event? && item.event.EndElement? {
      } else {
        assert !IsBoundary(item);
        if UnderService(items, k) {
          var j :| 0 <= j < k && items[j] == Event(StartElement(ServiceElement))
                   && NoBoundaryBetween(items, j, k);
          assert j < k - 1;
          assert NoBoundaryBetween(items, j, k - 1);
        }
        if UnderService(items, k - 1) {
          var j :| 0 <= j < k - 1 && items[j] == Event(StartElement(ServiceElement))
                   && NoBoundaryBetween(items, j, k - 1);
          assert NoBoundaryBetween(items, j, k);
        }
      }
    }
  }

  /** What the walk collects from the first `k` items. */
  lemma {:induction false} ScanGathersPrefix(items: seq<ReaderItem>, k: int)
    requires 0 <= k <= |items|
    requires Scan(items[..k]).Success?
    ensures Scan(items[..k]).value.elements == Gather(items, k)
  {
    if k > 0 {
      ScanExtends(items, k - 1);
      if Scan(items[..k - 1]).Failure? {
        assert false;
      }
      ScanGathersPrefix(items, k - 1);
      CurrentTracksService(items, k - 1);
    }
  }

  /** The walk collects exactly the character contents whose closest
      preceding start or end tag is `<TSPService>`, in document order. */
  lemma ScanCollectsServiceText(items: seq<ReaderItem>)
    requires Scan(items).Success?
    ensures Scan(items).value.elements == Gather(items, |items|)
  {
    assert items[..|items|] == items;
    ScanGathersPrefix(items, |items|);
  }

  /** After an end tag no character content is collected until the next
      start tag. */
  lemma EndTagStopsCollection(items: seq<ReaderItem>, j: int, k: int)
    requires 0 <= j < k < |items|
    requires items[j] == Event(EndElement)
    requires forall m :: j < m < k ==> !(items[m].Event? && items[m].event.StartElement?)
    ensures !Selected(items, k)
  {
    forall i | 0 <= i < j
      ensures !NoBoundaryBetween(items, i, k)
    {
      assert IsBoundary(items[j]);
    }
  }

  /** Character content and other events leave the current element as it
      was. */
  lemma OtherEventsKeepCurrent(items: seq<ReaderItem>, k: int)
    requires 0 <= k < |items|
    requires items[k].Event? && (items[k].event.Characters? || items[k].event.OtherEvent?)
    requires Scan(items[..k]).Success?
    ensures Scan(items[..k + 1]).Success?
    ensures Scan(items[..k + 1]).value.current == Scan(items[..k]).value.current
  {
    ScanExtends(items, k);
  }
}
