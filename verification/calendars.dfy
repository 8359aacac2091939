/** The calendar choices of the options page (`fetchCalendars`,
    options.js:26-65): of the user's calendar list, the calendars the user
    may create events in, split into the visible (`selected`) and the
    hidden ones, each as an `[id, summary]` pair, in list order. */
module Calendars {
  import opened Wrappers
  import Http

  /** An entry of the `calendarList.list` response; `selected` is absent
      when the API leaves it out. */
  datatype CalendarItem = CalendarItem(id: string, summary: string, accessRole: string, selected: Option<bool>)

  /** `[item.id, item.summary]`. */
  datatype Choice = Choice(id: string, summary: string)

  datatype CalendarLists = CalendarLists(calendars: seq<Choice>, hiddenCalendars: seq<Choice>)

  /** Events can be created only with the `owner` or `writer` role. */
  predicate Writable(item: CalendarItem) {
    item.accessRole == "owner" || item.accessRole == "writer"
  }

  /** JavaScript truthiness of `item.selected`. */
  predicate Selected(item: CalendarItem) {
    item.selected == Some(true)
  }

  function ChoiceOf(item: CalendarItem): Choice {
    Choice(item.id, item.summary)
  }

  /** Reference definition of the visible list. */
  function Visible(items: seq<CalendarItem>): seq<Choice> {
    if items == [] then []
    else (if Writable(items[0]) && Selected(items[0]) then [ChoiceOf(items[0])] else []) + Visible(items[1..])
  }

  /** Reference definition of the hidden list. */
  function Hidden(items: seq<CalendarItem>): seq<Choice> {
    if items == [] then []
    else (if Writable(items[0]) && !Selected(items[0]) then [ChoiceOf(items[0])] else []) + Hidden(items[1..])
  }

  function CountWritable(items: seq<CalendarItem>): nat {
    if items == [] then 0 else (if Writable(items[0]) then 1 else 0) + CountWritable(items[1..])
  }

  lemma {:induction false} VisibleAppend(items: seq<CalendarItem>, item: CalendarItem)
    ensures Visible(items + [item]) == Visible(items) + (if Writable(item) && Selected(item) then [ChoiceOf(item)] else [])
    ensures Hidden(items + [item]) == Hidden(items) + (if Writable(item) && !Selected(item) then [ChoiceOf(item)] else [])
  {
    if items != [] {
      assert (items + [item])[1..] == items[1..] + [item];
      VisibleAppend(items[1..], item);
    } else {
      assert [item][1..] == [];
    }
  }

  /** The loop over `items` (options.js:48-59). */
  method Partition(items: seq<CalendarItem>) returns (lists: CalendarLists)
    ensures lists.calendars == Visible(items)
    ensures lists.hiddenCalendars == Hidden(items)
  {
    var calendars: seq<Choice> := [];
    var hidden: seq<Choice> := [];
    var n := 0;
    while n < |items|
      invariant 0 <= n <= |items|
      invariant calendars == Visible(items[..n])
      invariant hidden == Hidden(items[..n])
    {
      var item := items[n];
      assert items[..n + 1] == items[..n] + [item];
      VisibleAppend(items[..n], item);
      if Writable(item) {
        if Selected(item) {
          calendars := calendars + [ChoiceOf(item)];
        } else {
          hidden := hidden + [ChoiceOf(item)];
        }
      }
      n := n + 1;
    }
    assert items[..n] == items;
    lists := CalendarLists(calendars, hidden);
  }

  /** `fetchCalendars` after authentication: the decoded list, or the
      failure of the request or of the JSON decoding. */
  method FetchCalendars(response: Result<seq<CalendarItem>, string>) returns (lists: CalendarLists)
    ensures response.Failure? ==> lists == CalendarLists([], [])
    ensures response.Success? ==>
      lists == CalendarLists(Visible(response.value), Hidden(response.value))
  {
    if response.Failure? {
      return CalendarLists([], []);
    }
    lists := Partition(response.value);
  }

  /** The request as `fetchCalendars` sends it: `handleStatus` first, then
      the decoding of the body, whose outcome `decoded` stands for. A status
      outside 2xx ends in the `catch`, which returns two empty lists; so
      does a failed decoding. Otherwise the lists are those of the items. */
  method FetchChecked(response: Http.Response, decoded: Result<seq<CalendarItem>, string>)
    returns (lists: CalendarLists)
    ensures !(200 <= response.status < 300) ==> lists == CalendarLists([], [])
    ensures decoded.Failure? ==> lists == CalendarLists([], [])
    ensures 200 <= response.status < 300 && decoded.Success? ==>
      lists == CalendarLists(Visible(decoded.value), Hidden(decoded.value))
  {
    var checked := Http.HandleStatus(response);
    if checked.Failure? {
      lists := FetchCalendars(Failure(checked.error));
    } else {
      lists := FetchCalendars(decoded);
    }
  }

  /** A choice is visible exactly when it comes from a writable, selected
      item; hidden exactly when from a writable, unselected one. */
  lemma {:induction false} ListMembership(items: seq<CalendarItem>, c: Choice)
    ensures c in Visible(items) <==> exists i :: i in items && Writable(i) && Selected(i) && ChoiceOf(i) == c
    ensures c in Hidden(items) <==> exists i :: i in items && Writable(i) && !Selected(i) && ChoiceOf(i) == c
  {
    if items != [] {
      ListMembership(items[1..], c);
      assert forall i :: i in items <==> i == items[0] || i in items[1..];
    }
  }

  /** Each writable item lands in exactly one of the two lists. */
  lemma {:induction false} ListsCountWritable(items: seq<CalendarItem>)
    ensures |Visible(items)| + |Hidden(items)| == CountWritable(items)
  {
    if items != [] {
      ListsCountWritable(items[1..]);
    }
  }

  /** `a` keeps some elements of `b`, in their order. */
  predicate IsSubsequence<T(==)>(a: seq<T>, b: seq<T>)
    decreases |b|
  {
    if b == [] then a == []
    else (a != [] && a[0] == b[0] && IsSubsequence(a[1..], b[1..])) || IsSubsequence(a, b[1..])
  }

  function Choices(items: seq<CalendarItem>): (cs: seq<Choice>)
    ensures |cs| == |items|
    ensures forall k :: 0 <= k < |items| ==> cs[k] == ChoiceOf(items[k])
  {
    if items == [] then [] else [ChoiceOf(items[0])] + Choices(items[1..])
  }

  /** Both lists keep the relative order of the calendar list. */
  lemma {:induction false} ListsKeepOrder(items: seq<CalendarItem>)
    ensures IsSubsequence(Visible(items), Choices(items))
    ensures IsSubsequence(Hidden(items), Choices(items))
  {
    if items != [] {
      ListsKeepOrder(items[1..]);
      var cs := Choices(items);
      assert cs[1..] == Choices(items[1..]);
      if Writable(items[0]) && Selected(items[0]) {
        assert Visible(items)[1..] == Visible(items[1..]);
      } else {
        assert Visible(items) == Visible(items[1..]);
      }
      if Writable(items[0]) && !Selected(items[0]) {
        assert Hidden(items)[1..] == Hidden(items[1..]);
      } else {
        assert Hidden(items) == Hidden(items[1..]);
      }
    }
  }
}
