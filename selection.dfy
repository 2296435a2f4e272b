/** The click-and-break scan that the page objects use over a list of
    rendered elements: walk the labels in document order, click the first one
    the test accepts, and stop. Element handles are abstracted to their
    labels; a click is recorded as the index of the clicked label. */
module Selection {
  import opened Common
  import opened JavaText

  /** `clicked` is the first index whose label satisfies `accept`, or None when
      no label does. */
  ghost predicate IsFirstWhere(labels: seq<string>, accept: string -> bool, clicked: Option<nat>)
  {
    match clicked
    case None => forall i :: 0 <= i < |labels| ==> !accept(labels[i])
    case Some(k) => k < |labels| && accept(labels[k]) && forall i :: 0 <= i < k ==> !accept(labels[i])
  }

  /** `for (WebElement e : elements) { if (accept(e.getText())) { e.click(); break; } }` */
  method FirstWhere(labels: seq<string>, accept: string -> bool) returns (clicked: Option<nat>)
    ensures IsFirstWhere(labels, accept, clicked)
  {
    clicked := None;
    var i := 0;
    while i < |labels|
      invariant 0 <= i <= |labels|
      invariant forall j :: 0 <= j < i ==> !accept(labels[j])
    {
      if accept(labels[i]) {
        clicked := Some(i);
        return;
      }
      i := i + 1;
    }
  }

  /** The first match is unique: two scans of the same labels with the same
      test click the same element. */
  lemma FirstWhereIsUnique(labels: seq<string>, accept: string -> bool, a: Option<nat>, b: Option<nat>)
    requires IsFirstWhere(labels, accept, a) && IsFirstWhere(labels, accept, b)
    ensures a == b
  {
  }

  /** The first position of `x` in `labels`: a reference definition of the
      first-equal scan. */
  function IndexOf(labels: seq<string>, x: string): (r: Option<nat>)
    ensures r.Some? ==> r.value < |labels| && labels[r.value] == x
    decreases |labels|
  {
    if labels == [] then None
    else if labels[0] == x then Some(0)
    else match IndexOf(labels[1..], x)
      case None => None
      case Some(k) => Some(k + 1)
  }

  /** The scan for the first label equal to `x` clicks IndexOf(labels, x). */
  lemma {:induction false} FirstEqualIsIndexOf(labels: seq<string>, x: string, clicked: Option<nat>)
    requires IsFirstWhere(labels, l => l == x, clicked)
    ensures clicked == IndexOf(labels, x)
    decreases |labels|
  {
    if labels != [] && labels[0] != x {
      var rest: Option<nat> := match clicked case None => None case Some(k) => Some(k - 1);
      assert IsFirstWhere(labels[1..], l => l == x, rest) by {
        if clicked.Some? {
          forall i | 0 <= i < clicked.value - 1 ensures labels[1..][i] != x {
            assert labels[1..][i] == labels[i + 1];
          }
        } else {
          forall i | 0 <= i < |labels| - 1 ensures labels[1..][i] != x {
            assert labels[1..][i] == labels[i + 1];
          }
        }
      }
      FirstEqualIsIndexOf(labels[1..], x, rest);
    }
  }

  /** IndexOf clicks at most once, and only a label equal to the text; no
      earlier label equals it. */
  lemma {:induction false} IndexOfIsFirst(labels: seq<string>, x: string)
    ensures IndexOf(labels, x).None? <==> x !in labels
    ensures IndexOf(labels, x).Some? ==> forall i :: 0 <= i < IndexOf(labels, x).value ==> labels[i] != x
    decreases |labels|
  {
    if labels != [] {
      IndexOfIsFirst(labels[1..], x);
      assert labels == [labels[0]] + labels[1..];
      if labels[0] != x && IndexOf(labels, x).Some? {
        forall i | 0 <= i < IndexOf(labels, x).value ensures labels[i] != x {
          if i > 0 { assert labels[i] == labels[1..][i - 1]; }
        }
      }
    }
  }

  /** `text.startsWith(city) && text.contains(city)`, raw text, case-sensitive. */
  predicate CityMatch(text: string, city: string)
  {
    StartsWith(text, city) && Contains(text, city)
  }

  /** The `contains` conjunct adds nothing: the scan clicks the first
      suggestion that starts with the typed city. */
  lemma CityMatchIsPrefix(suggestions: seq<string>, city: string, clicked: Option<nat>)
    requires IsFirstWhere(suggestions, t => CityMatch(t, city), clicked)
    ensures IsFirstWhere(suggestions, t => StartsWith(t, city), clicked)
  {
    if clicked.Some? {
      StartsWithImpliesContains(suggestions[clicked.value], city);
      forall i | 0 <= i < clicked.value ensures !StartsWith(suggestions[i], city) {
        if StartsWith(suggestions[i], city) {
          StartsWithImpliesContains(suggestions[i], city);
          assert CityMatch(suggestions[i], city);
        }
      }
    } else {
      forall i | 0 <= i < |suggestions| ensures !StartsWith(suggestions[i], city) {
        if StartsWith(suggestions[i], city) {
          StartsWithImpliesContains(suggestions[i], city);
          assert CityMatch(suggestions[i], city);
        }
      }
    }
  }
}
