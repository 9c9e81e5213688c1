/**
 * ScoreSaver and RecordNode: the leaderboard as a singly linked list owned by
 * `head`, kept sorted by insertion, loaded from and saved to the records file.
 */
module Leaderboard {
  import opened Wrappers
  import opened Text
  import opened TimeCodec
  import opened Records
  import opened IntParse
  import opened RecordFile

  /** The name stored when the name field is missing or blank. */
  const Placeholder: string := "SinNombre"

  /** The on-screen time label: missing altogether, or present with a text that may be null. */
  datatype TimeLabel = NoLabel | Label(text: Option<string>)

  /** One node of the list. Its data is set once by the constructor; only `next` is ever reassigned. */
  class RecordNode {
    const playerName: string
    const timeSeconds: int
    const timeString: string
    var next: RecordNode?

    constructor (name: string, seconds: int, timeStr: string)
      ensures Value() == Record(name, seconds, timeStr) && next == null
    {
      playerName := name;
      timeSeconds := seconds;
      timeString := timeStr;
      next := null;
    }

    function Value(): Record {
      Record(playerName, timeSeconds, timeString)
    }
  }

  /** The name GuardarRecord stores: the field's text as typed, or the placeholder if it is missing or blank. */
  function SubmittedName(nameText: Option<string>): (name: string)
    ensures !IsBlank(name)
    ensures nameText.Some? && !IsBlank(nameText.value) ==> name == nameText.value
    ensures nameText.None? || IsBlank(nameText.value) ==> name == Placeholder
  {
    if nameText.None? || IsBlank(nameText.value) then
      assert !IsWhiteSpace(Placeholder[0]);
      Placeholder
    else
      nameText.value
  }

  /** The record GuardarRecord builds from the name field and the time label's text (null reads as "0"). */
  function Submission(nameText: Option<string>, timeText: Option<string>): Record {
    var raw := timeText.GetOr("0");
    Record(SubmittedName(nameText), ParseTimeToSeconds(raw), raw)
  }

  /** A name of three spaces is stored as the placeholder; the time "12" is kept as typed with key 12. */
  lemma BlankNameExample()
    ensures Submission(Some("   "), Some("12")) == Record(Placeholder, 12, "12")
  {
    assert IsBlank("   ");
    assert DigitsValue("12") == 12 by { assert "12"[..1] == "1"; }
    TryParseDigits("12");
    ParseWithoutColon("12");
  }

  /** A missing time text reads as "0", which is the key 0. */
  lemma NullTimeExample(nameText: Option<string>)
    ensures Submission(nameText, None) == Record(SubmittedName(nameText), 0, "0")
  {
    assert DigitsValue("0") == 0;
    TryParseDigits("0");
    ParseWithoutColon("0");
  }

  class ScoreSaver {
    /** The first node, the best time; null when the list is empty. */
    var head: RecordNode?
    /** The lines of the records file, None while it does not exist. */
    var file: Option<seq<string>>

    /** The nodes from head to tail. */
    ghost var nodes: seq<RecordNode>
    /** Their records, in the same order. */
    ghost var Contents: seq<Record>
    ghost var Repr: set<object>

    /** The list is well linked and sorted by time, best first. */
    ghost predicate Valid()
      reads this, Repr
      ensures Valid() ==> this in Repr
    {
      Linked() && Sorted(Contents)
    }

    /** `nodes` is the chain from `head` along `next` to null, without repeats, and `Contents` holds their records. */
    ghost predicate Linked()
      reads this, Repr
      ensures Linked() ==> this in Repr
    {
      this in Repr &&
      (forall i :: 0 <= i < |nodes| ==> nodes[i] in Repr) &&
      |Contents| == |nodes| &&
      (forall i :: 0 <= i < |nodes| ==> nodes[i].Value() == Contents[i]) &&
      (if nodes == [] then head == null else head == nodes[0]) &&
      (forall i :: 0 <= i < |nodes| - 1 ==> nodes[i].next == nodes[i + 1]) &&
      (nodes != [] ==> nodes[|nodes| - 1].next == null) &&
      (forall i, j :: 0 <= i < j < |nodes| ==> nodes[i] != nodes[j])
    }

    /** Awake, without the Unity look-ups: load whatever the records file holds. */
    constructor (file: Option<seq<string>>)
      ensures Valid() && fresh(Repr - {this})
      ensures this.file == file
      ensures Contents == LoadRecords(file)
    {
      this.file := file;
      head := null;
      nodes := [];
      Contents := [];
      Repr := {this};
      new;
      LoadFromFile();
    }

    /** InsertarOrdenado: splice `nuevo` in before the first node with a strictly greater time. */
    method InsertSorted(nuevo: RecordNode)
      requires Valid()
      requires nuevo !in Repr
      modifies Repr, nuevo
      ensures Valid()
      ensures Repr == old(Repr) + {nuevo}
      ensures Contents == Insert(old(Contents), nuevo.Value())
      ensures file == old(file)
    {
      ghost var before := Contents;
      ghost var v := nuevo.Value();
      InsertKeepsSorted(before, v);
      // an empty list, or a time strictly better than the head's: the new node becomes the head
      if head == null || nuevo.timeSeconds < head.timeSeconds {
        assert InsertionPoint(before, nuevo.timeSeconds) == 0;
        LinkAtHead(nuevo);
        return;
      }
      // otherwise link it after the last node whose time is not greater than the new one's
      var actual, k := FindPredecessor(nuevo.timeSeconds);
      LinkAfter(actual, k, nuevo);
    }

    /** The walk of InsertarOrdenado: from the head, advance while the next node's time is not greater than `t`. */
    method FindPredecessor(t: int) returns (actual: RecordNode, ghost k: nat)
      requires Valid()
      requires head != null && head.timeSeconds <= t
      ensures actual.timeSeconds <= t
      ensures actual.next == null || t < actual.next.timeSeconds
      ensures k < |nodes| && actual == nodes[k]
      ensures k + 1 == InsertionPoint(Contents, t)
    {
      actual := head;
      k := 0;
      while actual.next != null && actual.next.timeSeconds <= t
        invariant k < |nodes| && actual == nodes[k]
        invariant forall i :: 0 <= i <= k ==> Contents[i].timeSeconds <= t
        decreases |nodes| - k
      {
        actual := actual.next;
        k := k + 1;
      }
      InsertionPointUnique(Contents, t, k + 1);
    }

    /** The first case of InsertarOrdenado: `nuevo` becomes the head and points to the old head. */
    method LinkAtHead(nuevo: RecordNode)
      requires Linked()
      requires nuevo !in Repr
      modifies this, nuevo
      ensures Linked()
      ensures Repr == old(Repr) + {nuevo}
      ensures Contents == [nuevo.Value()] + old(Contents)
      ensures file == old(file)
    {
      ghost var chain := nodes;
      ghost var before := Contents;
      nuevo.next := head;
      head := nuevo;
      nodes := [nuevo] + nodes;
      Contents := [nuevo.Value()] + Contents;
      Repr := Repr + {nuevo};
      forall i | 0 <= i < |nodes|
        ensures nodes[i] in Repr && nodes[i].Value() == Contents[i]
      {
        if i > 0 {
          assert nodes[i] == chain[i - 1] && Contents[i] == before[i - 1];
        }
      }
      forall i | 0 <= i < |nodes| - 1
        ensures nodes[i].next == nodes[i + 1]
      {
        if i > 0 {
          assert nodes[i] == chain[i - 1] && nodes[i + 1] == chain[i];
        }
      }
      forall i, j | 0 <= i < j < |nodes|
        ensures nodes[i] != nodes[j]
      {
        assert nodes[j] == chain[j - 1];
      }
    }

    /** The second case of InsertarOrdenado: link `nuevo` between the k-th node `actual` and its successor. */
    method LinkAfter(actual: RecordNode, ghost k: nat, nuevo: RecordNode)
      requires Linked()
      requires nuevo !in Repr
      requires k < |nodes| && actual == nodes[k]
      modifies actual, nuevo, this
      ensures Linked()
      ensures Repr == old(Repr) + {nuevo}
      ensures Contents == old(Contents)[..k + 1] + [nuevo.Value()] + old(Contents)[k + 1..]
      ensures file == old(file)
    {
      ghost var chain := nodes;
      ghost var before := Contents;
      nuevo.next := actual.next;
      actual.next := nuevo;
      nodes := nodes[..k + 1] + [nuevo] + nodes[k + 1..];
      Contents := Contents[..k + 1] + [nuevo.Value()] + Contents[k + 1..];
      Repr := Repr + {nuevo};
      forall i | 0 <= i < |nodes|
        ensures nodes[i] in Repr && nodes[i].Value() == Contents[i]
      {
        if i <= k {
          assert nodes[i] == chain[i] && Contents[i] == before[i];
        } else if i > k + 1 {
          assert nodes[i] == chain[i - 1] && Contents[i] == before[i - 1];
        }
      }
      forall i | 0 <= i < |nodes| - 1
        ensures nodes[i].next == nodes[i + 1]
      {
        if i < k {
          assert nodes[i] == chain[i] != actual && nodes[i + 1] == chain[i + 1];
        } else if i > k + 1 {
          assert nodes[i] == chain[i - 1] != actual && nodes[i + 1] == chain[i];
        } else if i == k + 1 {
          assert nodes[i + 1] == chain[k + 1];
        }
      }
      forall i, j | 0 <= i < j < |nodes|
        ensures nodes[i] != nodes[j]
      {
        if j <= k || i > k + 1 || (i <= k && j > k + 1) {
          assert nodes[i] == chain[if i <= k then i else i - 1];
          assert nodes[j] == chain[if j <= k then j else j - 1];
        }
      }
      assert nodes[|nodes| - 1].next == null by {
        if k + 1 < |chain| {
          assert nodes[|nodes| - 1] == chain[|chain| - 1] != actual;
        }
      }
    }

    /** CargarRecordsDesdeArchivo: empty the list, then insert each accepted line of the file in order. */
    method LoadFromFile()
      modifies this
      ensures Valid() && fresh(Repr - {this})
      ensures file == old(file)
      ensures Contents == LoadRecords(file)
    {
      head := null;
      nodes := [];
      Contents := [];
      Repr := {this};
      if file.None? {
        return;
      }
      var lines := file.value;
      for i := 0 to |lines|
        invariant Valid() && fresh(Repr - {this})
        invariant file == old(file)
        invariant Contents == LoadLines(lines[..i])
      {
        assert lines[..i + 1][..i] == lines[..i];
        LoadLine(lines[i]);
      }
      assert lines[..|lines|] == lines;
    }

    /** The body of CargarRecordsDesdeArchivo's loop: skip a blank or malformed line, else insert its record. */
    method LoadLine(linea: string)
      requires Valid()
      modifies Repr
      ensures Valid() && fresh(Repr - old(Repr))
      ensures file == old(file)
      ensures ParseLine(linea).None? ==> Contents == old(Contents)
      ensures ParseLine(linea).Some? ==> Contents == Insert(old(Contents), ParseLine(linea).value)
    {
      if IsBlank(linea) {
        return;
      }
      var partes := Split(linea, ';');
      if |partes| < 2 {
        return;
      }
      var nombre := Trim(partes[0]);
      var tiempoTexto := Trim(partes[1]);
      var segundos := ParseTimeToSeconds(tiempoTexto);
      var nodo := new RecordNode(nombre, segundos, tiempoTexto);
      InsertSorted(nodo);
    }

    /** GuardarListaEnArchivo: truncate the file, then write one line per node from head to tail. */
    method SaveListToFile()
      requires Valid()
      modifies this`file
      ensures Valid()
      ensures file == Some(FormatLines(Contents))
    {
      file := Some([]);
      var actual := head;
      ghost var k := 0;
      while actual != null
        invariant 0 <= k <= |nodes|
        invariant actual == if k < |nodes| then nodes[k] else null
        invariant file == Some(FormatLines(Contents[..k]))
        decreases |nodes| - k
      {
        var linea := actual.playerName + " ; " + actual.timeString;
        file := Some(file.value + [linea]);
        actual := actual.next;
        k := k + 1;
        assert FormatLines(Contents[..k]) == FormatLines(Contents[..k - 1]) + [linea];
      }
      assert Contents[..k] == Contents;
    }

    /**
     * GuardarRecord: without a time label nothing happens; otherwise the
     * submission is inserted in order and the whole list is written back.
     */
    method SaveRecord(nameText: Option<string>, timeLabel: TimeLabel)
      requires Valid()
      modifies Repr
      ensures Valid() && fresh(Repr - old(Repr))
      ensures timeLabel.NoLabel? ==> Contents == old(Contents) && file == old(file)
      ensures timeLabel.Label? ==>
        Contents == Insert(old(Contents), Submission(nameText, timeLabel.text)) &&
        file == Some(FormatLines(Contents))
    {
      var playerName := if nameText.Some? then nameText.value else "";
      if IsBlank(playerName) {
        playerName := Placeholder;
      }
      if timeLabel.NoLabel? {
        return;
      }
      var rawDisplayedTime := timeLabel.text.GetOr("0");
      var seconds := ParseTimeToSeconds(rawDisplayedTime);
      var nuevo := new RecordNode(playerName, seconds, rawDisplayedTime);
      InsertSorted(nuevo);
      SaveListToFile();
    }
  }
}
