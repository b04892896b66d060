/** The word protocol between a 32-bit guest and a 64-bit oracle host. */
module OracleProtocol {
  import opened Options
  import opened Sequences

  const WORD: nat := 0x1_0000_0000
  const DISCONNECT_ORACLE_QUERY_ID: nat := 0x4000_0000
  const UART_QUERY_ID: nat := 0xffff_ffff

  datatype Query = Query(id: nat, words: seq<nat>)

  ghost predicate IsWords(s: seq<nat>) { forall i :: 0 <= i < |s| ==> s[i] < WORD }

  /** Guest words as host words: low half first; an odd last word has no high half. */
  ghost function Paired(s: seq<nat>): (r: seq<nat>) {
    if s == [] then [] else if |s| == 1 then [s[0]] else [s[0] + WORD * s[1]] + Paired(s[2..])
  }

  /** Host words as guest words. */
  ghost function Split(s: seq<nat>): (r: seq<nat>)
    ensures |r| == 2 * |s|
  {
    if s == [] then [] else [s[0] % WORD, s[0] / WORD % WORD] + Split(s[1..])
  }

  lemma SplitHead(s: seq<nat>)
    requires s != []
    ensures Split(s)[0] == s[0] % WORD && Split(s)[1..] == [s[0] / WORD % WORD] + Split(s[1..])
    ensures Split([]) == []
  {
    Tail(s[0] % WORD, s[0] / WORD % WORD, Split(s[1..]));
  }

  lemma Tail(x: nat, y: nat, s: seq<nat>)
    ensures ([x, y] + s)[0] == x && ([x, y] + s)[1..] == [y] + s
  {}

  /** Splitting undoes pairing, up to the missing high half. */
  lemma {:induction false} SplitPaired(s: seq<nat>)
    requires IsWords(s)
    ensures Split(Paired(s)) == if |s| % 2 == 0 then s else s + [0]
  {
    if |s| >= 2 {
      SplitPaired(s[2..]);
      Joined(s[0], s[1]);
      assert Paired(s)[1..] == Paired(s[2..]);
      assert s == [s[0], s[1]] + s[2..];
    } else if |s| == 1 {
      assert Paired(s)[1..] == [];
      assert s == [s[0]];
    }
  }

  lemma Joined(low: nat, high: nat)
    requires low < WORD && high < WORD
    ensures (low + WORD * high) % WORD == low && (low + WORD * high) / WORD == high && high % WORD == high
  {}

  lemma {:induction false} PairedSnoc(s: seq<nat>, v: nat)
    ensures |Paired(s)| == (|s| + 1) / 2
    ensures |s| % 2 == 0 ==> Paired(s + [v]) == Paired(s) + [v]
    ensures |s| % 2 == 1 ==> Paired(s + [v]) == Paired(s)[..|Paired(s)| - 1] + [Paired(s)[|Paired(s)| - 1] + WORD * v]
    ensures |s| % 2 == 1 ==> Paired(s)[|Paired(s)| - 1] == s[|s| - 1]
  {
    if |s| >= 2 {
      PairedSnoc(s[2..], v);
      assert (s + [v])[2..] == s[2..] + [v];
    } else if |s| == 1 {
      assert Paired(s + [v]) == [s[0] + WORD * v] + Paired((s + [v])[2..]);
    } else {
      assert s + [v] == [v];
    }
  }

  /** `QueryBuffer`: the query's type, then its length, then its words. */
  class QueryBuffer {
    const id: nat
    var remaining: Option<nat>
    var writeLow: bool
    var buffer: seq<nat>
    ghost var words: seq<nat>
    ghost var total: nat

    constructor (id: nat)
      ensures Valid() && this.id == id && remaining.None?
    {
      this.id := id;
      remaining := None;
      writeLow := true;
      buffer := [];
      words := [];
      total := 0;
    }

    ghost predicate Valid()
      reads this
    {
      && IsWords(words) && buffer == Paired(words) && writeLow == (|words| % 2 == 0)
      && (remaining.Some? ==> remaining.value + |words| == total)
      && (remaining.None? ==> words == [])
    }

    /** `write`: true once the query is complete. */
    method Write(value: nat) returns (complete: bool)
      requires Valid() && value < WORD && (remaining.Some? ==> remaining.value > 0)
      modifies this
      ensures Valid() && remaining.Some? && (complete <==> remaining.value == 0)
      ensures old(remaining).None? ==> total == value && words == []
      ensures old(remaining).Some? ==> total == old(total) && words == old(words) + [value]
    {
      if remaining.Some? {
        PairedSnoc(words, value);
        if writeLow {
          buffer := buffer + [value];
          writeLow := false;
        } else {
          var last := buffer[|buffer| - 1];
          buffer := buffer[..|buffer| - 1] + [last + WORD * value];
          writeLow := true;
        }
        words := words + [value];
        remaining := Some(remaining.value - 1);
        complete := remaining.value == 0;
      } else {
        remaining := Some(value);
        total := value;
        complete := value == 0;
      }
    }
  }

  /** `ZkEENonDeterminismSource`; a processor's response may depend on every query answered before. */
  class Host {
    const respond: (seq<Query>, Query) -> Option<seq<nat>>
    var queryBuffer: QueryBuffer?
    var currentQueryId: Option<nat>
    var iterator_: Option<seq<nat>>
    var lenToIndicate: Option<nat>
    var highHalf: Option<nat>
    var connected: bool
    var answered: seq<Query>

    constructor (respond: (seq<Query>, Query) -> Option<seq<nat>>)
      ensures this.respond == respond && connected && Idle() && answered == [] && Pending() == []
    {
      this.respond := respond;
      queryBuffer := null;
      currentQueryId := None;
      iterator_ := None;
      lenToIndicate := None;
      highHalf := None;
      connected := true;
      answered := [];
    }

    /** Between queries; a response may be left over. */
    ghost predicate Idle()
      reads this
    {
      queryBuffer == null && (iterator_.Some? ==> |iterator_.value| > 0)
    }

    /** The words a reader would get, in order. */
    ghost function Pending(): (s: seq<nat>)
      reads this
    {
      (if lenToIndicate.Some? then [lenToIndicate.value] else [])
      + (if highHalf.Some? then [highHalf.value] else [])
      + (if iterator_.Some? then Split(iterator_.value) else [])
    }

    /** `read_impl`, which panics when nothing is prepared; a disconnected host reads as zeros. */
    method Read() returns (v: nat)
      requires Idle() && (connected ==> Pending() != [])
      modifies this
      ensures Idle() && answered == old(answered) && connected == old(connected)
      ensures connected ==> v == old(Pending())[0] && Pending() == old(Pending())[1..]
      ensures !connected ==> v == 0 && Pending() == old(Pending())
    {
      if !connected { return 0; }
      if lenToIndicate.Some? {
        v := lenToIndicate.value;
        lenToIndicate := None;
        return;
      }
      if highHalf.Some? {
        v := highHalf.value;
        highHalf := None;
        return;
      }
      SplitHead(iterator_.value);
      var next := iterator_.value[0];
      iterator_ := Some(iterator_.value[1..]);
      if |iterator_.value| == 0 {
        currentQueryId := None;
        iterator_ := None;
      }
      highHalf := Some(next / WORD % WORD);
      v := next % WORD;
    }

    /** The start of `write_impl`: whatever is left of an earlier response is dropped. */
    method DropResponse()
      modifies this`currentQueryId, this`iterator_, this`lenToIndicate, this`highHalf
      ensures currentQueryId.None? && iterator_.None? && lenToIndicate.None? && highHalf.None?
    {
      currentQueryId := None;
      iterator_ := None;
      lenToIndicate := None;
      highHalf := None;
    }

    /** `write_impl` between queries: the word names the next query, ignored once disconnected. */
    method Begin(id: nat)
      requires Idle() && id < WORD
      modifies this
      ensures connected == old(connected) && answered == old(answered) && Pending() == []
      ensures !connected && id != UART_QUERY_ID ==> Idle()
      ensures connected || id == UART_QUERY_ID ==>
        queryBuffer != null && fresh(queryBuffer) && queryBuffer.Valid() && queryBuffer.id == id && queryBuffer.remaining.None?
    {
      DropResponse();
      if !connected && id != UART_QUERY_ID { return; }
      queryBuffer := new QueryBuffer(id);
    }

    /** This word completes the query. */
    ghost predicate Completes(value: nat)
      requires queryBuffer != null
      reads this, queryBuffer
    {
      if queryBuffer.remaining.Some? then queryBuffer.remaining.value == 1 else value == 0
    }

    /** The query's words with this one, which is a word of it unless it is the length. */
    ghost function WordsWith(value: nat): (s: seq<nat>)
      requires queryBuffer != null
      reads this, queryBuffer
    {
      queryBuffer.words + if queryBuffer.remaining.Some? then [value] else []
    }

    /** `write_impl` inside a query; the word that completes it is answered by the processor for its type. */
    method Continue(value: nat)
      requires queryBuffer != null && queryBuffer.Valid() && value < WORD
      requires queryBuffer.remaining.Some? ==> queryBuffer.remaining.value > 0
      requires Completes(value) && queryBuffer.id != DISCONNECT_ORACLE_QUERY_ID ==>
        Answerable(respond, answered, Query(queryBuffer.id, Paired(WordsWith(value))))
      modifies this, queryBuffer
      ensures old(Completes(value)) && old(queryBuffer.id) != DISCONNECT_ORACLE_QUERY_ID ==>
        Answered(this, old(answered), Query(old(queryBuffer.id), Paired(old(WordsWith(value)))))
      ensures old(Completes(value)) && old(queryBuffer.id) == DISCONNECT_ORACLE_QUERY_ID ==>
        Idle() && !connected && answered == old(answered)
      ensures !(old(Completes(value)) && old(queryBuffer.id) == DISCONNECT_ORACLE_QUERY_ID) ==>
        connected == old(connected)
      ensures !old(Completes(value)) ==>
        && queryBuffer == old(queryBuffer) && queryBuffer.Valid() && answered == old(answered)
        && queryBuffer.words == old(WordsWith(value))
        && queryBuffer.remaining == Some(if old(queryBuffer.remaining).Some? then old(queryBuffer.remaining.value) - 1 else value)
    {
      DropResponse();
      var complete := queryBuffer.Write(value);
      if complete { ProcessBufferedQuery(); }
    }

    /** `process_buffered_query` */
    method ProcessBufferedQuery()
      requires iterator_.None? && currentQueryId.None? && lenToIndicate.None? && highHalf.None? && queryBuffer != null
      requires queryBuffer.id != DISCONNECT_ORACLE_QUERY_ID ==>
        Answerable(respond, answered, Query(queryBuffer.id, queryBuffer.buffer))
      modifies this
      ensures Idle()
      ensures old(queryBuffer.id) == DISCONNECT_ORACLE_QUERY_ID ==> !connected && answered == old(answered)
      ensures old(queryBuffer.id) != DISCONNECT_ORACLE_QUERY_ID ==>
        connected == old(connected) && Answered(this, old(answered), Query(old(queryBuffer.id), old(queryBuffer.buffer)))
    {
      var q := Query(queryBuffer.id, queryBuffer.buffer);
      queryBuffer := null;
      if q.id == DISCONNECT_ORACLE_QUERY_ID {
        connected := false;
        return;
      }
      var response := respond(answered, q).value;
      answered := answered + [q];
      lenToIndicate := Some((2 * |response|) % WORD);
      if |response| > 0 {
        currentQueryId := Some(q.id);
        iterator_ := Some(response);
      }
    }
  }

  /** Some processor serves the query, with a response whose doubled length is a guest word. */
  ghost predicate Answerable(respond: (seq<Query>, Query) -> Option<seq<nat>>, before: seq<Query>, q: Query) {
    var r := respond(before, q);
    r.Some? && 2 * |r.value| < WORD
  }

  /** The guest's side, with the witness that the host's wrapper records. */
  class Guest {
    const host: Host
    var readItems: seq<nat>
    var remaining: nat

    constructor (host: Host)
      ensures this.host == host && readItems == [] && remaining == 0
    {
      this.host := host;
      readItems := [];
      remaining := 0;
    }

    method CsrRead() returns (v: nat)
      requires host.Idle() && (host.connected ==> host.Pending() != [])
      modifies this`readItems, host
      ensures host.Idle() && host.connected == old(host.connected)
      ensures host.connected ==> v == old(host.Pending())[0] && host.Pending() == old(host.Pending())[1..]
      ensures !host.connected ==> v == 0
      ensures readItems == old(readItems) + [v] && host.answered == old(host.answered)
    {
      v := host.Read();
      readItems := readItems + [v];
    }

    /** Writes the words of a query whose type and length are already written. */
    method WriteWords(id: nat, words: seq<nat>, ghost before: seq<Query>)
      requires IsWords(words) && 0 < |words| && host.connected && host.answered == before
      requires id != DISCONNECT_ORACLE_QUERY_ID ==> Answerable(host.respond, before, Query(id, Paired(words)))
      requires host.queryBuffer != null && host.queryBuffer.Valid() && host.queryBuffer.id == id
      requires host.queryBuffer.words == []
      requires host.queryBuffer.remaining == Some(|words|)
      modifies host, host.queryBuffer
      ensures Concluded(host, id, before, words)
    {
      ghost var buffer := host.queryBuffer;
      for i := 0 to |words|
        invariant i < |words| ==> host.connected && host.answered == before && host.queryBuffer == buffer
        invariant i < |words| ==> buffer.Valid() && buffer.id == id
        invariant i < |words| ==> buffer.words == words[..i] && buffer.remaining == Some(|words| - i)
        invariant i == |words| ==> Concluded(host, id, before, words)
      {
        assert words[..i] + [words[i]] == words[..i + 1];
        assert words[..|words|] == words;
        host.Continue(words[i]);
      }
    }

    /** `raw_query`, from any leftover state: type, length, words, then the length of the answer. */
    method RawQuery(id: nat, words: seq<nat>)
      requires host.Idle() && host.connected && IsWords(words) && |words| < WORD && id < WORD
      requires id != DISCONNECT_ORACLE_QUERY_ID
      requires Answerable(host.respond, host.answered, Query(id, Paired(words)))
      modifies this, host
      ensures var q := Query(id, Paired(words)); var r := host.respond(old(host.answered), q).value;
        && host.Idle() && host.connected && host.answered == old(host.answered) + [q]
        && remaining == 2 * |r| && host.Pending() == Split(r)
        && readItems == old(readItems) + [2 * |r|]
    {
      host.Begin(id);
      host.Continue(|words|);
      if |words| > 0 {
        WriteWords(id, words, old(host.answered));
      }
      ghost var r := host.respond(old(host.answered), Query(id, Paired(words))).value;
      HeadTail(2 * |r|, Split(r));
      remaining := CsrRead();
    }

    /** `raw_query` for a disconnection: there is no answer, and its length reads as zero. */
    method RawDisconnect(words: seq<nat>)
      requires host.Idle() && host.connected && IsWords(words) && |words| < WORD
      modifies this, host
      ensures host.Idle() && !host.connected && host.answered == old(host.answered)
      ensures remaining == 0 && readItems == old(readItems) + [0]
    {
      host.Begin(DISCONNECT_ORACLE_QUERY_ID);
      host.Continue(|words|);
      if |words| > 0 { WriteWords(DISCONNECT_ORACLE_QUERY_ID, words, old(host.answered)); }
      remaining := CsrRead();
    }

    /** `raw_query` after a disconnection: every word is taken for the start of a query and ignored. */
    method RawIgnored(id: nat, words: seq<nat>)
      requires host.Idle() && !host.connected && IsWords(words) && |words| < WORD && id < WORD && Quiet(id, words)
      modifies this, host
      ensures host.Idle() && !host.connected && host.answered == old(host.answered)
      ensures remaining == 0 && readItems == old(readItems) + [0]
    {
      host.Begin(id);
      host.Begin(|words|);
      for i := 0 to |words|
        invariant host.Idle() && !host.connected && host.answered == old(host.answered) && readItems == old(readItems)
      {
        host.Begin(words[i]);
      }
      remaining := CsrRead();
    }

    /** The iterator's `next`. */
    method Next() returns (v: Option<nat>)
      requires host.Idle() && host.connected && remaining == |host.Pending()|
      modifies this, host
      ensures host.Idle() && host.connected && remaining == |host.Pending()| && host.answered == old(host.answered)
      ensures old(remaining) == 0 ==> v.None? && readItems == old(readItems) && host.Pending() == old(host.Pending())
      ensures old(remaining) > 0 ==> v == Some(old(host.Pending())[0]) && host.Pending() == old(host.Pending())[1..]
      ensures old(remaining) > 0 ==> readItems == old(readItems) + [old(host.Pending())[0]]
    {
      if remaining == 0 { return None; }
      remaining := remaining - 1;
      var item := CsrRead();
      v := Some(item);
    }

    /** Reads at most `count` of the waiting words and abandons the rest. */
    method Take(count: nat, ghost waiting: seq<nat>) returns (out: seq<nat>)
      requires host.Idle() && host.connected && host.Pending() == waiting && remaining == |waiting|
      modifies this, host
      ensures host.Idle() && host.connected && host.answered == old(host.answered)
      ensures out == Front(waiting, count) && readItems == old(readItems) + out
      decreases count
    {
      if count == 0 || remaining == 0 { return []; }
      FrontStep(waiting, count);
      ghost var before := readItems;
      var v := Next();
      var rest := Take(count - 1, waiting[1..]);
      out := [v.value] + rest;
      Chained(before, [v.value], rest);
    }
  }

  lemma HeadTail(x: nat, t: seq<nat>)
    ensures ([x] + t)[0] == x && ([x] + t)[1..] == t
  {}

  /** At most `n` words from the front. */
  ghost function Front(s: seq<nat>, n: nat): (r: seq<nat>) { s[..Min(n, |s|)] }

  lemma FrontStep(s: seq<nat>, n: nat)
    requires n > 0 && s != []
    ensures Front(s, n) == [s[0]] + Front(s[1..], n - 1)
  {}

  function Min(a: nat, b: nat): (m: nat) { if a < b then a else b }

  /** No word of a query names the console, the one query that a disconnected host still takes. */
  ghost predicate Quiet(id: nat, words: seq<nat>) {
    id != UART_QUERY_ID && |words| != UART_QUERY_ID && forall i :: 0 <= i < |words| ==> words[i] != UART_QUERY_ID
  }

  /** A query, and how many words of its answer the guest reads. */
  datatype Exchange = Exchange(id: nat, words: seq<nat>, count: nat)

  /** No exchange has disconnected the oracle. */
  ghost predicate Live(s: seq<Exchange>) { forall i :: 0 <= i < |s| ==> s[i].id != DISCONNECT_ORACLE_QUERY_ID }

  /** The queries that processors answer: those before a disconnection. */
  ghost function History(s: seq<Exchange>): (h: seq<Query>) {
    if s == [] then []
    else
      var e := s[|s| - 1];
      History(s[..|s| - 1]) + if Live(s) then [Query(e.id, Paired(e.words))] else []
  }

  /** Every exchange can be served after the ones before it, or ignored once disconnected. */
  ghost predicate Servable(respond: (seq<Query>, Query) -> Option<seq<nat>>, s: seq<Exchange>) {
    if s == [] then true
    else
      var e := s[|s| - 1];
      && Servable(respond, s[..|s| - 1])
      && IsWords(e.words) && |e.words| < WORD && e.id < WORD
      && (Live(s) ==> Answerable(respond, History(s[..|s| - 1]), Query(e.id, Paired(e.words))))
      && (!Live(s[..|s| - 1]) ==> Quiet(e.id, e.words))
  }

  /** Every word the guest should read, from the processors' answers alone. */
  ghost function Transcript(respond: (seq<Query>, Query) -> Option<seq<nat>>, s: seq<Exchange>): (t: seq<nat>)
    requires Servable(respond, s)
  {
    if s == [] then [] else
    var e := s[|s| - 1];
    Transcript(respond, s[..|s| - 1])
    + if Live(s) then
        var r := respond(History(s[..|s| - 1]), Query(e.id, Paired(e.words))).value;
        [2 * |r|] + Front(Split(r), e.count)
      else [0]
  }

  lemma {:induction false} ServablePrefix(respond: (seq<Query>, Query) -> Option<seq<nat>>, s: seq<Exchange>, i: nat)
    requires Servable(respond, s) && i <= |s|
    ensures Servable(respond, s[..i])
  {
    if i < |s| {
      ServablePrefix(respond, s[..|s| - 1], i);
      assert s[..|s| - 1][..i] == s[..i];
    } else {
      assert s[..i] == s;
    }
  }

  /** One exchange with a connected host, after which the rest of the answer is left behind. */
  method ServeOne(guest: Guest, e: Exchange)
    requires guest.host.Idle() && guest.host.connected
    requires IsWords(e.words) && |e.words| < WORD && e.id < WORD && e.id != DISCONNECT_ORACLE_QUERY_ID
    requires Answerable(guest.host.respond, guest.host.answered, Query(e.id, Paired(e.words)))
    modifies guest, guest.host
    ensures guest.host.Idle() && guest.host.connected
    ensures guest.host.answered == old(guest.host.answered) + [Query(e.id, Paired(e.words))]
    ensures var r := guest.host.respond(old(guest.host.answered), Query(e.id, Paired(e.words))).value;
      guest.readItems == old(guest.readItems) + ([2 * |r|] + Front(Split(r), e.count))
  {
    guest.RawQuery(e.id, e.words);
    ghost var r := guest.host.respond(old(guest.host.answered), Query(e.id, Paired(e.words))).value;
    var out := guest.Take(e.count, guest.host.Pending());
    Chained(old(guest.readItems), [2 * |r|], out);
  }

  /** The guest and its host after these exchanges. */
  ghost predicate Served(guest: Guest, s: seq<Exchange>)
    reads guest, guest.host
  {
    && guest.host.Idle() && guest.host.connected == Live(s) && guest.host.answered == History(s)
    && Servable(guest.host.respond, s) && guest.readItems == Transcript(guest.host.respond, s)
  }

  /** The guest's record after one more exchange. */
  method Serve(guest: Guest, ghost s: seq<Exchange>, ghost next: seq<Exchange>, e: Exchange)
    requires Served(guest, s) && next == s + [e] && Servable(guest.host.respond, next)
    modifies guest, guest.host
    ensures Served(guest, next)
  {
    assert next[..|s|] == s && next[|next| - 1] == e;
    LiveNext(s, e);
    if !guest.host.connected {
      guest.RawIgnored(e.id, e.words);
    } else if e.id == DISCONNECT_ORACLE_QUERY_ID {
      guest.RawDisconnect(e.words);
    } else {
      ServeOne(guest, e);
    }
  }

  lemma LiveNext(s: seq<Exchange>, e: Exchange)
    ensures Live(s + [e]) <==> Live(s) && e.id != DISCONNECT_ORACLE_QUERY_ID
  {
    if Live(s + [e]) {
      assert (s + [e])[|s|] == e;
      forall i | 0 <= i < |s| ensures s[i].id != DISCONNECT_ORACLE_QUERY_ID { assert (s + [e])[i] == s[i]; }
    }
  }

  /** Any run of queries, each answer read in full or abandoned, with a disconnection anywhere: the recorded witness is
      the transcript. */
  method Session(host: Host, s: seq<Exchange>) returns (recorded: seq<nat>)
    requires host.Idle() && host.connected && host.answered == [] && Servable(host.respond, s)
    modifies host
    ensures recorded == Transcript(host.respond, s) && host.answered == History(s) && host.connected == Live(s)
  {
    var guest := new Guest(host);
    for i := 0 to |s|
      invariant guest.host == host && Served(guest, s[..i])
    {
      ServablePrefix(host.respond, s, i + 1);
      Serve(guest, s[..i], s[..i + 1], s[i]);
    }
    assert s[..|s|] == s;
    recorded := guest.readItems;
  }

  /** A query whose last word is written: answered, or the host is disconnected. */
  ghost predicate Concluded(host: Host, id: nat, before: seq<Query>, words: seq<nat>)
    reads host
  {
    if id == DISCONNECT_ORACLE_QUERY_ID then host.Idle() && !host.connected && host.answered == before
    else host.connected && Answered(host, before, Query(id, Paired(words)))
  }

  /** The host answered `q` and its answer is waiting. */
  ghost predicate Answered(host: Host, before: seq<Query>, q: Query)
    reads host
  {
    var r := host.respond(before, q);
    host.Idle() && host.answered == before + [q] && r.Some? && host.Pending() == [2 * |r.value|] + Split(r.value)
  }
}
