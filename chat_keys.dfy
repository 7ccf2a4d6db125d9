/**
  Key layout of the chat store: the primary table key `chat:<id>` and the
  recency index key `chat_index:<inverted timestamp>:<id>`, whose ascending
  order is descending `updatedAt`.
*/
module ChatKeys {
  import opened Text
  import opened KeyOrder
  import opened Types

  /** The largest timestamp the 13-digit inverted field covers. */
  const MaxTs: int := 9999999999999
  const TsWidth: nat := 13
  const ChatPrefix: string := "chat:"
  const IndexPrefix: string := "chat_index:"

  function ChatKey(chatId: string): string
  {
    ChatPrefix + chatId
  }

  /** `String(9999999999999 - updatedAt).padStart(13, "0")`. */
  function InvertTs(updatedAt: int): string
  {
    PadStart(IntToString(MaxTs - updatedAt), TsWidth, '0')
  }

  function IndexKey(updatedAt: int, chatId: string): string
  {
    IndexPrefix + InvertTs(updatedAt) + ":" + chatId
  }

  function ToSummary(chat: Chat): ChatSummary
  {
    ChatSummary(chat.id, chat.title, chat.createdAt, chat.updatedAt)
  }

  /** A summary keeps everything of a chat but its messages: two chats have
      the same summary exactly when they differ at most in their messages. */
  lemma SummaryDropsOnlyMessages(a: Chat, b: Chat)
    ensures ToSummary(a) == ToSummary(b) <==> a.(messages := b.messages) == b
  {
  }

  predicate InTsRange(t: int)
  {
    0 <= t <= MaxTs
  }

  lemma ChatKeyInjective(a: string, b: string)
    ensures ChatKey(a) == ChatKey(b) ==> a == b
  {
    if ChatKey(a) == ChatKey(b) {
      assert a == ChatKey(a)[|ChatPrefix|..] && b == ChatKey(b)[|ChatPrefix|..];
    }
  }

  // ---- fixed-width decimal fields ----

  function Pow10(w: nat): (p: nat)
    ensures p >= 1
  {
    if w == 0 then 1 else 10 * Pow10(w - 1)
  }

  /** The last `w` decimal digits of `n`, most significant first. */
  function Digits(n: nat, w: nat): (r: string)
    ensures |r| == w
  {
    if w == 0 then [] else Digits(n / 10, w - 1) + [DigitChar(n % 10)]
  }

  lemma {:induction false} DigitsOfZero(w: nat)
    ensures Digits(0, w) == Repeat('0', w)
  {
    if w > 0 { DigitsOfZero(w - 1); }
  }

  /** Below `10^w`, zero-padding the decimal notation gives the `w` digits. */
  lemma {:induction false} PaddedDecimal(n: nat, w: nat)
    requires 1 <= w && n < Pow10(w)
    ensures |NatToString(n)| <= w
    ensures Digits(n, w) == Repeat('0', w - |NatToString(n)|) + NatToString(n)
    decreases w
  {
    if n < 10 {
      DigitsOfZero(w - 1);
    } else {
      assert w >= 2;
      PaddedDecimal(n / 10, w - 1);
    }
  }

  /** Fixed-width digit strings sort as the numbers they spell. */
  lemma {:induction false} DigitsOrder(n: nat, m: nat, w: nat)
    requires n < m < Pow10(w)
    ensures LexLess(Digits(n, w), Digits(m, w))
    decreases w
  {
    var dn, dm := Digits(n / 10, w - 1), Digits(m / 10, w - 1);
    if n / 10 < m / 10 {
      DigitsOrder(n / 10, m / 10, w - 1);
      LexLessExtend(dn, dm, [DigitChar(n % 10)], [DigitChar(m % 10)]);
    } else {
      LexLessCommonPrefix(dn, [DigitChar(n % 10)], [DigitChar(m % 10)]);
    }
  }

  lemma Pow10OfWidth()
    ensures Pow10(TsWidth) == MaxTs + 1
  {
    calc {
      Pow10(13);
      10 * Pow10(12);
      100 * Pow10(11);
      1000 * Pow10(10);
      10000 * Pow10(9);
      100000 * Pow10(8);
      1000000 * Pow10(7);
      10000000 * Pow10(6);
      100000000 * Pow10(5);
      1000000000 * Pow10(4);
      10000000000 * Pow10(3);
      100000000000 * Pow10(2);
      1000000000000 * Pow10(1);
      10000000000000 * Pow10(0);
    }
  }

  lemma {:induction false} PadToDigits(n: nat, w: nat)
    requires 1 <= w && n < Pow10(w)
    ensures PadStart(NatToString(n), w, '0') == Digits(n, w)
  {
    PaddedDecimal(n, w);
  }

  /** Inside the timestamp range the inverted field is the 13 digits of `MaxTs - t`. */
  lemma InvertTsIsDigits(t: int)
    requires InTsRange(t)
    ensures InvertTs(t) == Digits(MaxTs - t, TsWidth)
  {
    Pow10OfWidth();
    var v: nat := MaxTs - t;
    assert IntToString(v) == NatToString(v);
    PadToDigits(v, TsWidth);
  }

  /** Inside the timestamp range the inverted field has exactly 13 digits. */
  lemma InvertTsFixedWidth(t: int)
    requires InTsRange(t)
    ensures |InvertTs(t)| == TsWidth
    ensures forall i :: 0 <= i < TsWidth ==> IsDigit(InvertTs(t)[i])
  {
    InvertTsIsDigits(t);
    DigitsAreDigits(MaxTs - t, TsWidth);
  }

  lemma {:induction false} DigitsAreDigits(n: nat, w: nat)
    ensures forall i :: 0 <= i < w ==> IsDigit(Digits(n, w)[i])
  {
    if w > 0 { DigitsAreDigits(n / 10, w - 1); }
  }

  /** A later timestamp gives a smaller inverted field. */
  lemma InvertTsReversesOrder(a: int, b: int)
    requires InTsRange(a) && InTsRange(b) && a < b
    ensures LexLess(InvertTs(b), InvertTs(a))
  {
    var x: nat, y: nat := MaxTs - b, MaxTs - a;
    assert InvertTs(a) == Digits(y, TsWidth) by { InvertTsIsDigits(a); }
    assert InvertTs(b) == Digits(x, TsWidth) by { InvertTsIsDigits(b); }
    assert x < y < Pow10(TsWidth) by { Pow10OfWidth(); }
    DigitsOrder(x, y, TsWidth);
  }

  lemma InvertTsHasNoColon(t: int)
    ensures ':' !in InvertTs(t)
  {
    var s := IntToString(MaxTs - t);
    var r := InvertTs(t);
    forall i | 0 <= i < |r| ensures r[i] != ':' {
      if i >= |r| - |s| { assert r[i] == s[i - (|r| - |s|)]; }
    }
  }

  lemma {:induction false} SplitAtColon(a: string, x: string, b: string, y: string)
    requires ':' !in a && ':' !in b
    requires a + ":" + x == b + ":" + y
    ensures a == b && x == y
  {
    var l, r := a + ":" + x, b + ":" + y;
    assert l[|a|] == ':' && r[|b|] == ':';
    assert r[|a|] == ':' && l[|b|] == ':';
    assert |a| == |b|;
    assert a == l[..|a|] && b == r[..|b|];
    assert x == l[|a| + 1..] && y == r[|b| + 1..];
  }

  lemma PrefixCancel(p: string, x: string, y: string)
    requires p + x == p + y
    ensures x == y
  {
    assert x == (p + x)[|p|..] && y == (p + y)[|p|..];
  }

  lemma FieldsOfIndexKey(f1: string, a: string, f2: string, b: string)
    requires ':' !in f1 && ':' !in f2
    requires IndexPrefix + f1 + ":" + a == IndexPrefix + f2 + ":" + b
    ensures f1 == f2 && a == b
  {
    assert IndexPrefix + f1 + ":" + a == IndexPrefix + (f1 + ":" + a);
    assert IndexPrefix + f2 + ":" + b == IndexPrefix + (f2 + ":" + b);
    PrefixCancel(IndexPrefix, f1 + ":" + a, f2 + ":" + b);
    SplitAtColon(f1, a, f2, b);
  }

  /** An index key names its chat, whatever the timestamp. */
  lemma IndexKeyDeterminesId(t1: int, a: string, t2: int, b: string)
    requires IndexKey(t1, a) == IndexKey(t2, b)
    ensures a == b && InvertTs(t1) == InvertTs(t2)
  {
    InvertTsHasNoColon(t1);
    InvertTsHasNoColon(t2);
    FieldsOfIndexKey(InvertTs(t1), a, InvertTs(t2), b);
  }

  /** Inside the timestamp range an index key determines both its fields. */
  lemma IndexKeyInjective(t1: int, a: string, t2: int, b: string)
    requires InTsRange(t1) && InTsRange(t2)
    requires IndexKey(t1, a) == IndexKey(t2, b)
    ensures t1 == t2 && a == b
  {
    IndexKeyDeterminesId(t1, a, t2, b);
    if t1 < t2 {
      InvertTsReversesOrder(t1, t2);
      LexLessIrreflexive(InvertTs(t1));
    } else if t2 < t1 {
      InvertTsReversesOrder(t2, t1);
      LexLessIrreflexive(InvertTs(t1));
    }
  }

  /** The more recently updated chat sorts first in the index. */
  lemma IndexKeyOrder(t1: int, a: string, t2: int, b: string)
    requires InTsRange(t1) && InTsRange(t2) && t1 < t2
    ensures LexLess(IndexKey(t2, b), IndexKey(t1, a))
  {
    var f1, f2 := InvertTs(t1), InvertTs(t2);
    assert LexLess(f2, f1) by { InvertTsReversesOrder(t1, t2); }
    assert |f1| == |f2| by {
      InvertTsFixedWidth(t1);
      InvertTsFixedWidth(t2);
    }
    LexLessExtend(f2, f1, ":" + b, ":" + a);
    LexLessCommonPrefix(IndexPrefix, f2 + (":" + b), f1 + (":" + a));
    IndexKeyShape(t2, b);
    IndexKeyShape(t1, a);
  }

  lemma Regroup(p: string, f: string, c: string, id: string)
    ensures p + f + c + id == p + (f + (c + id))
  {
  }

  lemma IndexKeyShape(t: int, id: string)
    ensures IndexKey(t, id) == IndexPrefix + (InvertTs(t) + (":" + id))
  {
    Regroup(IndexPrefix, InvertTs(t), ":", id);
  }

  /** Chats updated at the same instant sort by id. */
  lemma IndexKeyTieOrder(t: int, a: string, b: string)
    ensures LexLess(IndexKey(t, a), IndexKey(t, b)) <==> LexLess(a, b)
  {
    LexLessCommonPrefix(IndexPrefix + InvertTs(t) + ":", a, b);
  }
}
