/** The dots program as dots.c keeps it. */
module StimDots {
  import opened Bytes
  import opened StimRecord
  import opened StimProgram

  class DotsVec {
    const repeat: nat
    const str: string
    const numSubvecs: nat
    var isExpanded: bool
    var subvecs: seq<Nibble>
    var hasClk: bool

    constructor (repeat: nat, str: string, numSubvecs: nat)
      ensures this.repeat == repeat && this.str == str && this.numSubvecs == numSubvecs
      ensures !isExpanded && subvecs == [] && !hasClk
    {
      this.repeat, this.str, this.numSubvecs := repeat, str, numSubvecs;
      isExpanded, subvecs, hasClk := false, [], false;
    }

    function Value(): (r: Vec) { Vec(repeat, str) }

    /** expand_dots_vec_subvecs without data subvecs. */
    method Expand()
      requires !isExpanded && subvecs == [] && |str| == numSubvecs + 1
      modifies this
      ensures isExpanded && |subvecs| == numSubvecs
      ensures forall i :: 0 <= i < numSubvecs ==> subvecs[i] == SubvecOf(str[i + 1])
      ensures hasClk == (old(hasClk) || 'C' in str[1..])
    {
      subvecs := seq(numSubvecs, _ => DUT_SUBVEC_X);
      for i := 0 to numSubvecs
        invariant |subvecs| == numSubvecs
        invariant forall j :: 0 <= j < i ==> subvecs[j] == SubvecOf(str[j + 1])
        invariant forall j :: i <= j < numSubvecs ==> subvecs[j] == DUT_SUBVEC_X
        invariant hasClk == (old(hasClk) || 'C' in str[1..i + 1])
      {
        assert str[1..i + 2] == str[1..i + 1] + [str[i + 1]];
        match str[i + 1] {
          case '0' => subvecs := subvecs[i := DUT_SUBVEC_0];
          case '1' => subvecs := subvecs[i := DUT_SUBVEC_1];
          case 'X' => subvecs := subvecs[i := DUT_SUBVEC_X];
          case 'H' => subvecs := subvecs[i := DUT_SUBVEC_H];
          case 'L' => subvecs := subvecs[i := DUT_SUBVEC_L];
          case 'C' =>
            subvecs := subvecs[i := DUT_SUBVEC_C];
            hasClk := true;
          case _ =>
        }
      }
      assert str[1..] == str[1..numSubvecs + 1];
      isExpanded := true;
    }

    /** Looks for a clock in the vector's string. */
    method FindClk()
      modifies this`hasClk
      ensures hasClk == (old(hasClk) || HasClk(str))
    {
      for k := 0 to |str|
        invariant hasClk == (old(hasClk) || 'C' in str[..k])
      {
        assert str[..k + 1] == str[..k] + [str[k]];
        if str[k] == 'C' { hasClk := true; }
      }
      assert str[..|str|] == str;
    }

    /** unexpand_dots_vec_subvecs */
    method Unexpand()
      modifies this`isExpanded, this`subvecs
      ensures !isExpanded && (old(isExpanded) ==> subvecs == []) && (!old(isExpanded) ==> subvecs == old(subvecs))
    {
      if !isExpanded { return; }
      subvecs := [];
      isExpanded := false;
    }
  }

  ghost function Values(vs: seq<DotsVec>): (r: seq<Vec>)
    ensures |r| == |vs| && forall i :: 0 <= i < |r| ==> r[i] == vs[i].Value()
  {
    seq(|vs|, i requires 0 <= i < |vs| => vs[i].Value())
  }

  lemma NopHasNoClk(numPins: nat)
    ensures Nop(numPins).repeat == 1 && !HasClk(Nop(numPins).str)
  {
  }

  lemma PaddedNone(vs: seq<Vec>, numPins: nat)
    ensures Padded(vs, 0, numPins) == vs
  {
  }

  lemma PaddedOne(vs: seq<Vec>, n: nat, numPins: nat)
    ensures Padded(vs, n, numPins) + [Vec(1, Nop(numPins).str)] == Padded(vs, n + 1, numPins)
  {
  }

  /** The string of append_dots_vec_by_nop_vecs. */
  method NopStr(numPins: nat) returns (str: string)
    ensures str == Nop(numPins).str
  {
    str := "";
    for i := 0 to numPins + 1
      invariant |str| == i && forall j :: 0 <= j < i ==> str[j] == if j == 0 then 'V' else 'X'
    {
      if i == 0 { str := str + ['V']; } else { str := str + ['X']; }
    }
  }

  class Dots {
    const pins: seq<nat>
    var numDotsVecs: nat
    var dotsVecs: seq<DotsVec> // the slots in use; the rest of the numDotsVecs slots are null
    var curA1: nat
    var curA2: nat
    var curAppended: nat

    ghost predicate Valid()
      reads this`numDotsVecs, this`dotsVecs, this`curAppended, dotsVecs`isExpanded, dotsVecs`subvecs
    {
      && |dotsVecs| == curAppended <= numDotsVecs
      && (forall i :: 0 <= i < |dotsVecs| ==>
        dotsVecs[i].numSubvecs == |pins| && !dotsVecs[i].isExpanded && dotsVecs[i].subvecs == [])
      && (forall i, j :: 0 <= i < j < |dotsVecs| ==> dotsVecs[i] != dotsVecs[j])
    }

    /** The program so far. */
    ghost function Pattern(): (r: seq<Vec>)
      reads this`dotsVecs
      ensures |r| == |dotsVecs| && forall i :: 0 <= i < |r| ==> r[i] == dotsVecs[i].Value()
    {
      Values(dotsVecs)
    }

    /** Every vector knows whether it has a clock. */
    ghost predicate Clocked()
      reads this`dotsVecs, dotsVecs`hasClk
    {
      forall i :: 0 <= i < |dotsVecs| ==> dotsVecs[i].hasClk == HasClk(dotsVecs[i].str)
    }

    /** create_dots */
    constructor (numDotsVecs: nat, pins: seq<nat>)
      ensures Valid() && Clocked() && this.pins == pins && this.numDotsVecs == numDotsVecs && dotsVecs == []
      ensures curA1 == curA2 == 0
    {
      this.pins, this.numDotsVecs := pins, numDotsVecs;
      dotsVecs, curA1, curA2, curAppended := [], 0, 0, 0;
    }

    /** append_dots_vec_by_vec_str, once the repeat is parsed. */
    method Append(repeat: nat, str: string)
      requires Valid() && curAppended < numDotsVecs
      modifies this`dotsVecs, this`curAppended
      ensures Valid() && Pattern() == old(Pattern()) + [Vec(repeat, str)] && curAppended == old(curAppended) + 1
      ensures old(dotsVecs) <= dotsVecs && forall i :: |old(dotsVecs)| <= i < |dotsVecs| ==> fresh(dotsVecs[i])
      ensures !HasClk(str) && old(Clocked()) ==> Clocked()
    {
      var v := new DotsVec(repeat, str, |pins|);
      assert v !in dotsVecs;
      dotsVecs := dotsVecs + [v];
      curAppended := curAppended + 1;
    }

    /** append_dots_vec_by_nop_vecs; if there is room for some vectors there must be room for all. */
    method AppendNops(n: nat)
      requires Valid() && (curAppended < numDotsVecs ==> curAppended + n <= numDotsVecs)
      modifies this`dotsVecs, this`curAppended, this`numDotsVecs
      ensures Valid() && Pattern() == Padded(old(Pattern()), n, |pins|)
      ensures numDotsVecs == old(numDotsVecs) + (if old(curAppended) >= old(numDotsVecs) then n else 0)
      ensures old(dotsVecs) <= dotsVecs && forall i :: |old(dotsVecs)| <= i < |dotsVecs| ==> fresh(dotsVecs[i])
      ensures old(Clocked()) ==> Clocked()
    {
      hide Clocked, Padded, Nop, HasClk, Values;
      var str := NopStr(|pins|);
      NopHasNoClk(|pins|);
      ghost var start := curAppended;
      if curAppended >= numDotsVecs { numDotsVecs := numDotsVecs + n; }
      ghost var was := Pattern();
      PaddedNone(was, |pins|);
      for v := 0 to n
        invariant Valid() && Pattern() == Padded(was, v, |pins|) && curAppended == start + v
        invariant numDotsVecs == old(numDotsVecs) + (if old(curAppended) >= old(numDotsVecs) then n else 0)
        invariant old(dotsVecs) <= dotsVecs && forall i :: |old(dotsVecs)| <= i < |dotsVecs| ==> fresh(dotsVecs[i])
        invariant old(Clocked()) ==> Clocked()
      {
        Append(1, str);
        PaddedOne(was, v, |pins|);
      }
    }

    /** get_num_unrolled_dots_vecs, when no slot is empty: also finds out which vectors have a clock. */
    method GetNumUnrolled() returns (n: nat)
      requires Valid() && curAppended == numDotsVecs
      modifies dotsVecs`hasClk
      ensures (forall v :: v in dotsVecs && old(v.hasClk) ==> HasClk(v.str)) ==>
        Clocked() && n == UnrolledTotal(Pattern(), |Pattern()|)
    {
      n := 0;
      ghost var p, sane := Pattern(), forall v :: v in dotsVecs && v.hasClk ==> HasClk(v.str);
      for i := 0 to numDotsVecs
        invariant sane ==> n == UnrolledTotal(p, i)
        invariant sane ==> forall j :: 0 <= j < i ==> dotsVecs[j].hasClk == HasClk(dotsVecs[j].str)
        invariant forall j :: i <= j < |dotsVecs| ==> dotsVecs[j].hasClk == old(dotsVecs[j].hasClk)
      {
        var v := dotsVecs[i];
        assert forall j :: 0 <= j < |dotsVecs| && j != i ==> dotsVecs[j] != v;
        v.FindClk();
        n := n + if v.hasClk then v.repeat * 2 else v.repeat;
      }
    }
  }
}
