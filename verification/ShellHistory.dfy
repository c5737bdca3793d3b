/** The history object: a doubly linked list of commands, changed in place. */
module ShellHistory {
  import opened HistorySpec
  import opened Wrappers

  class Elem {
    var next: Elem?
    var prev: Elem?
    const buf: string

    constructor (buf: string)
      ensures this.buf == buf && next == null && prev == null
    {
      this.buf := buf;
      next, prev := null, null;
    }
  }

  ghost predicate NextOf(s: seq<Elem>)
    reads s`next
  {
    forall i {:trigger s[i].next} :: 0 <= i < |s| ==> s[i].next == if i + 1 < |s| then s[i + 1] else null
  }

  ghost predicate PrevOf(s: seq<Elem>)
    reads s`prev
  {
    forall i {:trigger s[i].prev} :: 0 <= i < |s| ==> s[i].prev == if i > 0 then s[i - 1] else null
  }

  ghost predicate Distinct(s: seq<Elem>) {
    forall i, j :: 0 <= i < j < |s| ==> s[i] != s[j]
  }

  class History {
    var head: Elem?
    var tail: Elem?
    var length: nat
    var current: Elem?
    var saved: string
    var savedValid: bool
    ghost var nodes: seq<Elem>
    ghost var texts: seq<string>
    ghost var pos: Option<nat>

    /** The list is linked both ways and holds `texts`, oldest first. */
    ghost predicate Linked()
      reads this`head, this`tail, this`length, this`nodes, this`texts, nodes
    {
      && Distinct(nodes) && NextOf(nodes) && PrevOf(nodes)
      && head == (if nodes == [] then null else nodes[0])
      && tail == (if nodes == [] then null else nodes[|nodes| - 1])
      && length == |nodes| == |texts| <= MAX_LENGTH
      && forall i :: 0 <= i < |nodes| ==> nodes[i].buf == texts[i]
    }

    ghost predicate Valid()
      reads this, nodes
    {
      && Linked()
      && (pos.Some? ==> pos.value < |nodes|)
      && current == if pos.None? then null else nodes[pos.value]
    }

    ghost function View(): Browser
      reads this
    {
      Browser(texts, pos, saved, savedValid)
    }

    constructor ()
      ensures Valid() && View() == Browser([], None, "", false)
    {
      head, tail, length, current := null, null, 0, null;
      saved, savedValid := "", false;
      nodes, texts, pos := [], [], None;
    }

    /** Makes room by unlinking the oldest entry. */
    method DropHead()
      requires Linked() && nodes != []
      modifies this`head, this`tail, this`length, this`nodes, this`texts, nodes`prev
      ensures Linked() && nodes == old(nodes)[1..] && texts == old(texts)[1..]
    {
      if head == tail {
        assert |nodes| == 1;
        head := null;
        tail := null;
      } else {
        assert |nodes| > 1;
        head := head.next;
        head.prev := null;
      }
      length := length - 1;
      nodes, texts := nodes[1..], texts[1..];
    }

    method LinkTail(elem: Elem)
      requires Linked() && length < MAX_LENGTH && elem !in nodes && elem.next == null && elem.prev == null
      modifies this`head, this`tail, this`length, this`nodes, this`texts, nodes`next, elem
      ensures Linked() && nodes == old(nodes) + [elem] && texts == old(texts) + [elem.buf]
    {
      if head == null {
        elem.prev := null;
        head := elem;
      } else {
        elem.prev := tail;
        elem.prev.next := elem;
      }
      tail := elem;
      length := length + 1;
      nodes, texts := nodes + [elem], texts + [elem.buf];
    }

    method Append(command: string)
      requires Linked()
      modifies this`head, this`tail, this`length, this`nodes, this`texts, nodes`prev, nodes`next
      ensures Linked() && texts == Appended(old(texts), command)
      ensures forall e :: e in nodes ==> e in old(nodes) || fresh(e)
    {
      if tail != null {
        if tail.buf == command {
          return;
        }
      }
      if length == MAX_LENGTH {
        DropHead();
      }
      var elem := new Elem(command);
      LinkTail(elem);
    }

    /** Enter: a non-empty line goes into the history, and browsing ends. */
    method Execute(line: string)
      requires Valid()
      modifies this, nodes`prev, nodes`next
      ensures Valid() && pos == None && saved == old(saved) && savedValid == old(savedValid)
      ensures texts == if line == "" then old(texts) else Appended(old(texts), line)
    {
      if line != "" {
        Append(line);
      }
      StopBrowsing();
    }

    method StopBrowsing()
      requires Linked()
      modifies this`current, this`pos
      ensures Valid() && pos == None
    {
      current := null;
      pos := None;
    }

    method GetPrevious(line: string) returns (text: Option<string>)
      requires Valid()
      modifies this`current, this`saved, this`savedValid, this`pos
      ensures Valid() && Answer(View(), text) == Previous(old(View()), line)
    {
      if current == head {
        return None;
      } else if current == null {
        current := tail;
        pos := Some(|nodes| - 1);
        saved := line;
        savedValid := true;
      } else {
        current := current.prev;
        pos := Some(pos.value - 1);
      }
      text := Some(current.buf);
    }

    method GetNext() returns (text: Option<string>)
      requires Valid()
      modifies this`current, this`savedValid, this`pos
      ensures Valid() && Answer(View(), text) == Next(old(View()))
    {
      if current != null {
        current := current.next;
        pos := if pos.value + 1 < |nodes| then Some(pos.value + 1) else None;
      }
      if current != null {
        text := Some(current.buf);
      } else if savedValid {
        savedValid := false;
        text := Some(saved);
      } else {
        text := None;
      }
    }
  }
}
