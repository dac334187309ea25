/** Requests that wait for one answer each, keyed by the sequence number they were sent under. */
module Ledger {

  type Seq = x: int | 0 <= x < 0x1_0000

  function Next(s: Seq): Seq {
    (s + 1) % 0x1_0000
  }

  /** Frames are numbered in turn, so a number comes round again only after 65535 others. */
  lemma SameNumber(a: nat, b: nat)
    requires a < b && a % 0x1_0000 == b % 0x1_0000
    ensures b - a >= 0x1_0000
  {
  }

  /** Who asked: tickets are numbered in the order their requests came in. */
  type Ticket = nat

  /**
   Every ticket issued so far is answered, waiting under its sequence number, or lost because its number was issued
   again while it waited.
   */
  datatype Book = Book(issued: nat, waiting: map<Seq, Ticket>, answered: seq<Ticket>, lost: set<Ticket>)

  datatype Answer<R> = Answer(ticket: Ticket, result: R)

  const EMPTY := Book(0, map[], [], {})

  ghost predicate Issued(t: Ticket, n: nat) {
    t < n
  }

  ghost function Everyone(n: nat): set<Ticket> {
    set t: nat | t < n && Issued(t, n)
  }

  ghost function Elements(s: seq<Ticket>): set<Ticket> {
    set t | t in s
  }

  ghost function Tickets<R>(answers: seq<Answer<R>>): (t: seq<Ticket>)
    ensures |t| == |answers|
  {
    seq(|answers|, k requires 0 <= k < |answers| => answers[k].ticket)
  }

  lemma TicketsNext<R>(answers: seq<Answer<R>>, a: Answer<R>)
    ensures Tickets(answers + [a]) == Tickets(answers) + [a.ticket]
  {
  }

  /** Every answer since `before` was `result`. */
  ghost predicate Told<R>(before: seq<Answer<R>>, answers: seq<Answer<R>>, result: R) {
    before <= answers && forall k :: |before| <= k < |answers| ==> answers[k].result == result
  }

  ghost predicate NoRepeat(s: seq<Ticket>) {
    forall i, j :: 0 <= i < j < |s| ==> s[i] != s[j]
  }

  ghost predicate OnePlaceEach(waiting: map<Seq, Ticket>) {
    forall r, s :: r in waiting && s in waiting && r != s ==> waiting[r] != waiting[s]
  }

  ghost predicate Balanced(b: Book) {
    && Elements(b.answered) + b.waiting.Values + b.lost == Everyone(b.issued)
    && Elements(b.answered) !! b.waiting.Values && Elements(b.answered) !! b.lost && b.waiting.Values !! b.lost
    && NoRepeat(b.answered) && OnePlaceEach(b.waiting)
  }

  // ----- what can happen to a request -----

  /** Whoever waits under a number that is issued again is forgotten. */
  function Dropped(b: Book, at: Seq): set<Ticket> {
    if at in b.waiting then {b.waiting[at]} else {}
  }

  /** The next ticket waits under `at`. */
  function Accepted(b: Book, at: Seq): Book {
    Book(b.issued + 1, b.waiting[at := b.issued], b.answered, b.lost + Dropped(b, at))
  }

  /** The next ticket is answered at once: its request could not be sent. */
  function Refused(b: Book, ticket: Ticket): Book {
    Book(b.issued + 1, b.waiting, b.answered + [ticket], b.lost)
  }

  /** A request nobody waits on is sent under `at`. */
  function Unattended(b: Book, at: Seq): Book {
    b.(waiting := b.waiting - {at}, lost := b.lost + Dropped(b, at))
  }

  /** Whoever waits under `at` is answered. */
  function Answered(b: Book, at: Seq): Book {
    if at in b.waiting then b.(waiting := b.waiting - {at}, answered := b.answered + [b.waiting[at]]) else b
  }

  lemma ValuesWithout(waiting: map<Seq, Ticket>, at: Seq)
    requires OnePlaceEach(waiting) && at in waiting
    ensures (waiting - {at}).Values == waiting.Values - {waiting[at]}
  {
    forall t | t in waiting.Values - {waiting[at]} ensures t in (waiting - {at}).Values {
      var s :| s in waiting && waiting[s] == t;
      assert (waiting - {at})[s] == t;
    }
  }

  lemma ValuesWith(waiting: map<Seq, Ticket>, at: Seq, ticket: Ticket)
    requires at !in waiting
    ensures waiting[at := ticket].Values == waiting.Values + {ticket}
  {
    var now := waiting[at := ticket];
    assert now[at] == ticket;
    forall t | t in waiting.Values ensures t in now.Values {
      var s :| s in waiting && waiting[s] == t;
      assert now[s] == t;
    }
  }

  lemma UnattendedBalances(b: Book, at: Seq)
    requires Balanced(b)
    ensures Balanced(Unattended(b, at))
  {
    if at in b.waiting {
      ValuesWithout(b.waiting, at);
    } else {
      assert b.waiting - {at} == b.waiting;
    }
  }

  lemma AcceptedBalances(b: Book, at: Seq)
    requires Balanced(b)
    ensures Balanced(Accepted(b, at))
  {
    UnattendedBalances(b, at);
    var c := Unattended(b, at);
    ValuesWith(c.waiting, at, b.issued);
    assert c.waiting[at := b.issued] == b.waiting[at := b.issued];
    assert !Issued(b.issued, b.issued);
    NextTicket(b.issued);
  }

  lemma NextTicket(n: nat)
    ensures Everyone(n + 1) == Everyone(n) + {n}
  {
    forall t: Ticket ensures t in Everyone(n + 1) <==> t in Everyone(n) + {n} {
      assert Issued(t, n) <==> t < n;
      assert Issued(t, n + 1) <==> t < n + 1;
    }
  }

  lemma RefusedBalances(b: Book)
    requires Balanced(b)
    ensures Balanced(Refused(b, b.issued))
  {
    assert !Issued(b.issued, b.issued);
    assert Elements(b.answered + [b.issued]) == Elements(b.answered) + {b.issued};
    NextTicket(b.issued);
  }

  lemma AnsweredBalances(b: Book, at: Seq)
    requires Balanced(b)
    ensures Balanced(Answered(b, at))
  {
    if at in b.waiting {
      var t := b.waiting[at];
      ValuesWithout(b.waiting, at);
      assert t in b.waiting.Values;
      assert Elements(b.answered + [t]) == Elements(b.answered) + {t};
    }
  }

  // ----- what balance means -----

  lemma {:induction false} CountOfDistinct(s: seq<Ticket>, t: Ticket)
    requires NoRepeat(s)
    ensures multiset(s)[t] == if t in s then 1 else 0
  {
    if s != [] {
      var n := |s| - 1;
      CountOfDistinct(s[..n], t);
      assert s == s[..n] + [s[n]];
    }
  }

  /** No ticket is ever answered twice, and one that is answered no longer waits and is not lost. */
  lemma NeverTwice(b: Book, t: Ticket)
    requires Balanced(b)
    ensures multiset(b.answered)[t] <= 1
    ensures t in b.answered ==> t < b.issued && t !in b.waiting.Values && t !in b.lost
  {
    CountOfDistinct(b.answered, t);
    assert t in b.answered ==> t in Elements(b.answered);
    assert t in Everyone(b.issued) <==> Issued(t, b.issued);
  }

  /** Once nobody waits, everyone who asked and was not lost has been answered exactly once, and nobody else. */
  lemma AllAnsweredOnce(b: Book, t: Ticket)
    requires Balanced(b) && b.waiting == map[]
    ensures multiset(b.answered)[t] == if t < b.issued && t !in b.lost then 1 else 0
  {
    CountOfDistinct(b.answered, t);
    assert b.waiting.Values == {};
    assert t in Elements(b.answered) + b.lost <==> t in Everyone(b.issued);
    assert t in Everyone(b.issued) <==> Issued(t, b.issued);
  }

  lemma EachAnsweredOnce(b: Book)
    requires Balanced(b) && b.waiting == map[]
    ensures forall t: Ticket :: multiset(b.answered)[t] == if t < b.issued && t !in b.lost then 1 else 0
  {
    forall t: Ticket ensures multiset(b.answered)[t] == if t < b.issued && t !in b.lost then 1 else 0 {
      AllAnsweredOnce(b, t);
    }
  }
}
