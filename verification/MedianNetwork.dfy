/** The in-place 19-exchange network of io_getADCval.

    The first nine exchanges sort the three thirds of the array; the next nine bring
    the greatest low, the middle mid and the least high of the thirds to places 6, 4
    and 2; the last three take the middle of those.  NetworkResult writes this down,
    ResultIsMedian proves that it is the median. */
module MedianNetwork {
  import opened CTypes
  import opened Median

  function Low(a: int, b: int, c: int): int {
    Min(a, Min(b, c))
  }

  function Mid(a: int, b: int, c: int): int {
    Min(Max(a, Min(b, c)), Max(b, c))
  }

  function High(a: int, b: int, c: int): int {
    Max(a, Max(b, c))
  }

  /** The median from the values Low, Mid and High of each third. */
  function Combine(l0: int, m0: int, h0: int, l1: int, m1: int, h1: int, l2: int, m2: int, h2: int): int {
    Mid(High(l0, l1, l2), Mid(m0, m1, m2), Low(h0, h1, h2))
  }

  function NetworkResult(s: seq<int>): int
    requires |s| == 9
  {
    Combine(Low(s[0], s[1], s[2]), Mid(s[0], s[1], s[2]), High(s[0], s[1], s[2]),
            Low(s[3], s[4], s[5]), Mid(s[3], s[4], s[5]), High(s[3], s[4], s[5]),
            Low(s[6], s[7], s[8]), Mid(s[6], s[7], s[8]), High(s[6], s[7], s[8]))
  }

  function One(b: bool): nat {
    if b then 1 else 0
  }

  function CountThird(a: int, b: int, c: int, t: int): nat {
    One(a <= t) + One(b <= t) + One(c <= t)
  }

  lemma ThirdThreshold(a: int, b: int, c: int, t: int)
    ensures Low(a, b, c) <= t <==> CountThird(a, b, c, t) >= 1
    ensures Mid(a, b, c) <= t <==> CountThird(a, b, c, t) >= 2
    ensures High(a, b, c) <= t <==> CountThird(a, b, c, t) >= 3
  {
  }

  lemma CountThirds(s: seq<int>, t: int)
    requires |s| == 9
    ensures CountAtMost(s, t) == CountThird(s[0], s[1], s[2], t) + CountThird(s[3], s[4], s[5], t)
                                 + CountThird(s[6], s[7], s[8], t)
  {
    var u, v := s[3..], s[6..];
    CountPrefix(s, t);
    CountPrefix(u, t);
    CountPrefix(v, t);
    assert u[0] == s[3] && u[1] == s[4] && u[2] == s[5] && u[3..] == v;
    assert v[0] == s[6] && v[1] == s[7] && v[2] == s[8] && v[3..] == [];
  }

  lemma CountPrefix(s: seq<int>, t: int)
    requires |s| >= 3
    ensures CountAtMost(s, t) == CountThird(s[0], s[1], s[2], t) + CountAtMost(s[3..], t)
  {
    assert s[1..][1..] == s[2..] && s[2..][1..] == s[3..];
    assert CountAtMost(s[2..], t) == One(s[2] <= t) + CountAtMost(s[3..], t);
  }

  /** The network computes the median: for every threshold, its result is at most the
      threshold exactly when at least five of the nine samples are. */
  lemma ResultIsMedian(s: seq<int>)
    requires |s| == 9
    ensures IsMedianOfNine(NetworkResult(s), s)
  {
    forall t ensures NetworkResult(s) <= t <==> CountAtMost(s, t) >= 5 {
      CountThirds(s, t);
      ThirdThreshold(s[0], s[1], s[2], t);
      ThirdThreshold(s[3], s[4], s[5], t);
      ThirdThreshold(s[6], s[7], s[8], t);
      CombineThreshold(Low(s[0], s[1], s[2]), Mid(s[0], s[1], s[2]), High(s[0], s[1], s[2]),
                       Low(s[3], s[4], s[5]), Mid(s[3], s[4], s[5]), High(s[3], s[4], s[5]),
                       Low(s[6], s[7], s[8]), Mid(s[6], s[7], s[8]), High(s[6], s[7], s[8]), t);
    }
  }

  /** Combine is below a threshold when two of three hold: every low is, two mids
      are, some high is. */
  lemma CombineThreshold(l0: int, m0: int, h0: int, l1: int, m1: int, h1: int,
                         l2: int, m2: int, h2: int, t: int)
    ensures Combine(l0, m0, h0, l1, m1, h1, l2, m2, h2) <= t <==>
            One(CountThird(l0, l1, l2, t) >= 3) + One(CountThird(m0, m1, m2, t) >= 2)
            + One(CountThird(h0, h1, h2, t) >= 1) >= 2
  {
  }

  /** The median of nine values, defined by its property alone. */
  ghost function MedianOf(s: seq<int>): (m: int)
    requires |s| == 9
    ensures IsMedianOfNine(m, s)
  {
    ResultIsMedian(s);
    var m :| IsMedianOfNine(m, s);
    m
  }

  lemma ResultIsMedianOf(s: seq<int>)
    requires |s| == 9
    ensures NetworkResult(s) == MedianOf(s)
  {
    ResultIsMedian(s);
    MedianUnique(s, NetworkResult(s), MedianOf(s));
  }

  /** The macro PIX_SORT on two places of an array. */
  method PixSort(p: array<int16>, a: nat, b: nat)
    requires a < p.Length && b < p.Length && a != b
    modifies p
    ensures p[a] == Min(old(p[a]), old(p[b])) && p[b] == Max(old(p[a]), old(p[b]))
    ensures forall i | 0 <= i < p.Length && i != a && i != b :: p[i] == old(p[i])
    ensures multiset(p[..]) == old(multiset(p[..]))
  {
    if p[a] > p[b] {
      var temp := p[a];
      p[a] := p[b];
      p[b] := temp;
    }
  }

  /** One source line of three exchanges on six different places. */
  method PixRow(p: array<int16>, a: nat, b: nat, c: nat, d: nat, e: nat, f: nat)
    requires p.Length == 9 && a < 9 && b < 9 && c < 9 && d < 9 && e < 9 && f < 9
    requires |{a, b, c, d, e, f}| == 6
    modifies p
    ensures p[a] == Min(old(p[a]), old(p[b])) && p[b] == Max(old(p[a]), old(p[b]))
    ensures p[c] == Min(old(p[c]), old(p[d])) && p[d] == Max(old(p[c]), old(p[d]))
    ensures p[e] == Min(old(p[e]), old(p[f])) && p[f] == Max(old(p[e]), old(p[f]))
    ensures forall i | 0 <= i < 9 && i !in {a, b, c, d, e, f} :: p[i] == old(p[i])
    ensures multiset(p[..]) == old(multiset(p[..]))
  {
    PixSort(p, a, b);
    PixSort(p, c, d);
    PixSort(p, e, f);
  }

  /** x, y, z are a, b, c in order. */
  predicate InOrder(x: int, y: int, z: int, a: int, b: int, c: int) {
    x == Low(a, b, c) && y == Mid(a, b, c) && z == High(a, b, c)
  }

  /** The first nine exchanges sort the thirds. */
  method SortThirds(p: array<int16>)
    requires p.Length == 9
    modifies p
    ensures multiset(p[..]) == old(multiset(p[..]))
    ensures InOrder(p[0], p[1], p[2], old(p[0]), old(p[1]), old(p[2]))
    ensures InOrder(p[3], p[4], p[5], old(p[3]), old(p[4]), old(p[5]))
    ensures InOrder(p[6], p[7], p[8], old(p[6]), old(p[7]), old(p[8]))
  {
    PixRow(p, 1, 2, 4, 5, 7, 8);
    PixRow(p, 0, 1, 3, 4, 6, 7);
    PixRow(p, 1, 2, 4, 5, 7, 8);
  }

  /** The other ten exchanges combine them. */
  method CombineThirds(p: array<int16>)
    requires p.Length == 9
    modifies p
    ensures p[4] == Combine(old(p[0]), old(p[1]), old(p[2]), old(p[3]), old(p[4]),
                            old(p[5]), old(p[6]), old(p[7]), old(p[8]))
    ensures multiset(p[..]) == old(multiset(p[..]))
  {
    PixRow(p, 0, 3, 5, 8, 4, 7);
    PixRow(p, 3, 6, 1, 4, 2, 5);
    PixSort(p, 4, 7);
    PixSort(p, 4, 2);
    PixSort(p, 6, 4);
    PixSort(p, 4, 2);
  }

  /** All nineteen exchanges: place 4 ends with a median, and no sample is lost. */
  method RunNetwork(p: array<int16>)
    requires p.Length == 9
    modifies p
    ensures p[4] == NetworkResult(old(p[..]))
    ensures multiset(p[..]) == old(multiset(p[..]))
  {
    SortThirds(p);
    CombineThirds(p);
  }
}
