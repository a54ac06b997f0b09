/** Choices: the value of a bool choice, the visibility of its members and the default
    (sym_calc_value, sym_calc_visibility, sym_calc_choice, sym_choice_default), the values of
    the members, and sym_set_tristate_value on a member (scripts/kconfig/symbol.c).  The
    members are bools without defaults of their own. */
module SymbolChoice {
  import opened Basics
  import opened KconfigExpr
  import opened KconfigTransform

  /** A member, named by its place in the list of members. */
  type Member = nat

  /** Conditions of prompts; none means always. */
  type Prompts = seq<Option<Expr>>

  /** A default of a choice: its condition, and the member it names. */
  datatype ChoiceDefault = ChoiceDefault(cond: Option<Expr>, member: Member)

  /** What is left of a choice once its conditions are evaluated: the visibility of the members,
      and which defaults are met. */
  datatype Setting = Setting(visible: seq<bool>, offers: seq<(bool, Member)>)
  {
    predicate Shown(m: Member) { m < |visible| && visible[m] }

    predicate Offers(i: nat)
      requires i < |offers|
    {
      offers[i].0 && Shown(offers[i].1)
    }

    /** The member that is selected when the user's is not visible: the first visible one
        among those the defaults name, else the first visible one of all. */
    ghost predicate IsDefault(m: Member) {
      && Shown(m)
      && if exists i :: 0 <= i < |offers| && Offers(i)
         then exists i :: 0 <= i < |offers| && Offers(i) && offers[i].1 == m
                          && forall j :: 0 <= j < i ==> !Offers(j)
         else forall n: Member :: n < m ==> !Shown(n)
    }

    /** The selected member: the user's if visible, else the default. */
    ghost predicate Selects(user: Option<Member>, m: Member) {
      if user.Some? && Shown(user.value) then m == user.value else IsDefault(m)
    }
  }

  function Cond(e: Option<Expr>, v: Valuation): Tri { if e.None? then YES else Value(e.value, v) }

  /** A bool symbol is visible if the condition of any prompt is not n. */
  function AnyMet(conds: Prompts, v: Valuation): bool {
    conds != [] && (AnyMet(conds[..|conds| - 1], v) || Cond(conds[|conds| - 1], v) != NO)
  }

  /** The symbol of a choice, what its own value depends on, the prompts of the members, and the
      defaults.  The members' prompts may depend on the choice. */
  datatype Group = Group(self: Sym, prompts: Prompts, revDep: Option<Expr>, members: seq<Prompts>,
                         defaults: seq<ChoiceDefault>)
  {
    /** Defaults name members. */
    predicate Valid() {
      forall f | f in defaults :: f.member < |members|
    }

    /** The value of the choice: what the user said as far as it is visible, and never below what
        selects it, m counting as y. */
    predicate On(v: Valuation, userSet: bool, userTri: Tri) {
      (AnyMet(prompts, v) && userSet && userTri != NO) || (revDep.Some? && Value(revDep.value, v) != NO)
    }

    /** The members' conditions are evaluated when the choice has its value. */
    function With(v: Valuation, on: bool): Valuation {
      var t: Tri := if on then YES else NO;
      Valuation(s => TriWith(v, t, s), s => if s == self then TriString(t) else v.str(s))
    }

    function TriWith(v: Valuation, t: Tri, s: Sym): Tri { if s == self then t else v.tri(s) }

    function Visible(v: Valuation, on: bool): seq<bool> {
      seq(|members|, m requires 0 <= m < |members| => AnyMet(members[m], With(v, on)))
    }

    function Offers(v: Valuation, on: bool): seq<(bool, Member)> {
      seq(|defaults|, i requires 0 <= i < |defaults| =>
        (Cond(defaults[i].cond, With(v, on)) != NO, defaults[i].member))
    }

    function SettingOf(v: Valuation, on: bool): Setting { Setting(Visible(v, on), Offers(v, on)) }

    /** Does the value of the symbol matter to the choice or its members? */
    ghost predicate Mentions(s: Sym) {
      || (exists e | e in prompts :: In(e, s)) || In(revDep, s)
      || (exists m: Member, e | m < |members| && e in members[m] :: In(e, s))
      || (exists f | f in defaults :: In(f.cond, s))
    }
  }

  /** The valuations give everything the choice looks at the same value. */
  ghost predicate Alike(g: Group, v: Valuation, w: Valuation) {
    forall s | g.Mentions(s) :: v.tri(s) == w.tri(s) && v.str(s) == w.str(s)
  }

  lemma CondSame(e: Option<Expr>, v: Valuation, w: Valuation)
    requires forall s | In(e, s) :: v.tri(s) == w.tri(s) && v.str(s) == w.str(s)
    ensures Cond(e, v) == Cond(e, w)
  {
    if e.Some? {
      forall s | Contains(e.value, s) ensures v.tri(s) == w.tri(s) && v.str(s) == w.str(s) {
        assert In(e, s);
      }
      ContainsAll(e.value, v, w);
    }
  }

  lemma {:induction false} AnyMetSame(conds: Prompts, v: Valuation, w: Valuation)
    requires forall e, s | e in conds && In(e, s) :: v.tri(s) == w.tri(s) && v.str(s) == w.str(s)
    ensures AnyMet(conds, v) == AnyMet(conds, w)
  {
    if conds != [] {
      AnyMetSame(conds[..|conds| - 1], v, w);
      CondSame(conds[|conds| - 1], v, w);
    }
  }

  lemma {:induction false} AnyMetIff(conds: Prompts, v: Valuation)
    ensures AnyMet(conds, v) <==> exists e :: e in conds && Cond(e, v) != NO
  {
    if conds != [] {
      var n := |conds| - 1;
      AnyMetIff(conds[..n], v);
      assert conds == conds[..n] + [conds[n]];
    }
  }

  /** Something requires the choice: its reverse dependency is not n. */
  predicate Required(g: Group, v: Valuation) { g.revDep.Some? && Value(g.revDep.value, v) != NO }

  /** The user wants the choice, and one of its prompts has a condition other than n. */
  ghost predicate Wished(g: Group, v: Valuation, userSet: bool, userTri: Tri) {
    userSet && userTri != NO && exists e :: e in g.prompts && Cond(e, v) != NO
  }

  /** The member has a prompt whose condition is not n where the choice is y. */
  ghost predicate CanBeSeen(g: Group, v: Valuation, m: Member) {
    m < |g.members| && exists e :: e in g.members[m] && Cond(e, g.With(v, true)) != NO
  }

  ghost predicate OffersAt(g: Group, v: Valuation, i: nat)
    requires i < |g.defaults|
  {
    Cond(g.defaults[i].cond, g.With(v, true)) != NO && CanBeSeen(g, v, g.defaults[i].member)
  }

  /** The i-th default is the first whose condition is met and that names a member to be seen. */
  ghost predicate IsFirstOffer(g: Group, v: Valuation, i: nat) {
    && i < |g.defaults| && OffersAt(g, v, i)
    && forall j | 0 <= j < i :: !OffersAt(g, v, j)
  }

  /** The member that the choice selects, in terms of the conditions. */
  ghost predicate Takes(g: Group, v: Valuation, user: Option<Member>, m: Member) {
    && CanBeSeen(g, v, m)
    && (user.Some? && CanBeSeen(g, v, user.value) ==> m == user.value)
    && (!(user.Some? && CanBeSeen(g, v, user.value)) ==>
          && (forall i: nat | IsFirstOffer(g, v, i) :: m == g.defaults[i].member)
          && ((forall i: nat | i < |g.defaults| :: !OffersAt(g, v, i)) ==>
                forall n: Member | n < m :: !CanBeSeen(g, v, n)))
  }

  lemma ShownIff(g: Group, v: Valuation, m: Member)
    ensures g.SettingOf(v, true).Shown(m) <==> CanBeSeen(g, v, m)
  {
    if m < |g.members| {
      AnyMetIff(g.members[m], g.With(v, true));
    }
  }

  lemma OffersIff(g: Group, v: Valuation, i: nat)
    requires i < |g.defaults|
    ensures g.SettingOf(v, true).Offers(i) <==> OffersAt(g, v, i)
  {
    ShownIff(g, v, g.defaults[i].member);
  }

  /** Selecting is taking what the conditions say. */
  lemma SelectsTakes(g: Group, v: Valuation, user: Option<Member>, m: Member)
    requires g.SettingOf(v, true).Selects(user, m)
    ensures Takes(g, v, user, m)
  {
    var s := g.SettingOf(v, true);
    forall n: Member ensures s.Shown(n) <==> CanBeSeen(g, v, n) {
      ShownIff(g, v, n);
    }
    forall i: nat | i < |g.defaults| ensures s.Offers(i) <==> OffersAt(g, v, i) {
      OffersIff(g, v, i);
    }
    if !(user.Some? && s.Shown(user.value)) {
      forall i: nat | IsFirstOffer(g, v, i) ensures m == g.defaults[i].member {
        assert s.Offers(i);
        var k :| 0 <= k < |s.offers| && s.Offers(k) && s.offers[k].1 == m
                 && forall j :: 0 <= j < k ==> !s.Offers(j);
        assert OffersAt(g, v, k);
        assert i == k;
      }
    }
  }

  /** It is in terms of any valuation in which the choice is y, and all else is as it is. */
  lemma SeenWhereYes(g: Group, v: Valuation, w: Valuation, m: Member)
    requires w.tri(g.self) == YES && w.str(g.self) == "y"
    requires forall s | s != g.self :: w.tri(s) == v.tri(s) && w.str(s) == v.str(s)
    ensures CanBeSeen(g, v, m) <==> m < |g.members| && exists e :: e in g.members[m] && Cond(e, w) != NO
    ensures forall i: nat | i < |g.defaults| ::
              OffersAt(g, v, i) <==> Cond(g.defaults[i].cond, w) != NO && CanBeSeen(g, v, g.defaults[i].member)
  {
    var y := g.With(v, true);
    forall s: Sym ensures w.tri(s) == y.tri(s) && w.str(s) == y.str(s) {
      assert s != g.self ==> w.tri(s) == v.tri(s) && w.str(s) == v.str(s);
      assert TriString(YES) == "y";
    }
    forall e ensures Cond(e, w) == Cond(e, g.With(v, true)) {
      CondSame(e, w, g.With(v, true));
    }
  }

  /** A choice is on exactly if something requires it or the user wants it, where it is visible. */
  lemma OnIff(g: Group, v: Valuation, userSet: bool, userTri: Tri)
    ensures g.On(v, userSet, userTri) <==> Required(g, v) || Wished(g, v, userSet, userTri)
  {
    AnyMetIff(g.prompts, v);
  }

  predicate OnlyOn(values: seq<bool>, m: Member) {
    m < |values| && forall n: Member | n < |values| :: values[n] <==> n == m
  }

  predicate NoneOn(values: seq<bool>) { forall n: Member | n < |values| :: !values[n] }

  /** What everything being evaluated gives, in terms of the conditions. */
  lemma InTermsOfConditions(g: Group, v: Valuation, user: Option<Member>, userSet: bool, userTri: Tri,
                            values: seq<bool>)
    requires |values| == |g.members|
    requires var on, s := g.On(v, userSet, userTri), g.SettingOf(v, true);
             if on && exists m: Member :: s.Shown(m)
             then exists m: Member :: s.Selects(user, m) && OnlyOn(values, m)
             else NoneOn(values)
    ensures if (Required(g, v) || Wished(g, v, userSet, userTri)) && exists m: Member :: CanBeSeen(g, v, m)
            then exists m: Member :: Takes(g, v, user, m) && OnlyOn(values, m)
            else NoneOn(values)
  {
    OnIff(g, v, userSet, userTri);
    forall m: Member ensures g.SettingOf(v, true).Shown(m) <==> CanBeSeen(g, v, m) {
      ShownIff(g, v, m);
    }
    if m :| g.SettingOf(v, true).Selects(user, m) && OnlyOn(values, m) {
      SelectsTakes(g, v, user, m);
    }
  }

  /** What the choice looks at decides its value and its setting. */
  lemma OnSame(g: Group, v: Valuation, w: Valuation, userSet: bool, userTri: Tri)
    requires Alike(g, v, w)
    ensures g.On(v, userSet, userTri) == g.On(w, userSet, userTri)
  {
    forall e, s | e in g.prompts && In(e, s) ensures v.tri(s) == w.tri(s) && v.str(s) == w.str(s) {
      assert g.Mentions(s);
    }
    AnyMetSame(g.prompts, v, w);
    forall s | In(g.revDep, s) ensures v.tri(s) == w.tri(s) && v.str(s) == w.str(s) {
      assert g.Mentions(s);
    }
    CondSame(g.revDep, v, w);
  }

  lemma SettingSame(g: Group, v: Valuation, w: Valuation, on: bool)
    requires Alike(g, v, w)
    ensures g.SettingOf(v, on) == g.SettingOf(w, on)
  {
    var x, y := g.With(v, on), g.With(w, on);
    forall m | 0 <= m < |g.members| ensures g.Visible(v, on)[m] == g.Visible(w, on)[m] {
      forall e, s | e in g.members[m] && In(e, s) ensures x.tri(s) == y.tri(s) && x.str(s) == y.str(s) {
        assert g.Mentions(s);
      }
      AnyMetSame(g.members[m], x, y);
    }
    forall i | 0 <= i < |g.defaults| ensures g.Offers(v, on)[i] == g.Offers(w, on)[i] {
      forall s | In(g.defaults[i].cond, s) ensures x.tri(s) == y.tri(s) && x.str(s) == y.str(s) {
        assert g.defaults[i] in g.defaults;
        assert g.Mentions(s);
      }
      CondSame(g.defaults[i].cond, x, y);
    }
  }

  /** A change of what no condition mentions, such as the members and what depends on them, is
      no change for the choice. */
  lemma ApartIsAlike(g: Group, v: Valuation, w: Valuation, changed: set<Sym>)
    requires forall s | s in changed :: !g.Mentions(s)
    requires forall s | s !in changed :: v.tri(s) == w.tri(s) && v.str(s) == w.str(s)
    ensures Alike(g, v, w)
  {
  }

  /** The selected member is determined, visible, and a member. */
  lemma SelectsOne(s: Setting, user: Option<Member>, m: Member, n: Member)
    requires s.Selects(user, m) && s.Selects(user, n)
    ensures m == n && s.Shown(m)
  {
    if !(user.Some? && s.Shown(user.value)) {
      if exists i :: 0 <= i < |s.offers| && s.Offers(i) {
        var i :| 0 <= i < |s.offers| && s.Offers(i) && s.offers[i].1 == m
                 && forall j :: 0 <= j < i ==> !s.Offers(j);
        var k :| 0 <= k < |s.offers| && s.Offers(k) && s.offers[k].1 == n
                 && forall j :: 0 <= j < k ==> !s.Offers(j);
        assert i == k;
      }
    }
  }

  class Choice {
    const g: Group
    /** def[S_DEF_USER] of the choice, and the SYMBOL_DEF_USER flags of it and its members. */
    var user: Option<Member>
    var userTri: Tri
    var userSet: bool
    var memberSet: seq<bool>
    /** curr.val and curr.tri of the choice, and `visible` of the members. */
    var curr: Option<Member>
    var on: bool
    var visible: seq<bool>

    ghost predicate Valid()
      reads this
    {
      && g.Valid() && |memberSet| == |visible| == |g.members|
      && (user.Some? ==> user.value < |g.members|)
    }

    constructor (g: Group)
      requires g.Valid()
      ensures Valid() && this.g == g && user == None
    {
      this.g := g;
      user, userTri, userSet, curr, on := None, NO, false, None, false;
      memberSet := seq(|g.members|, _ => false);
      visible := seq(|g.members|, _ => false);
    }

    /** sym_choice_default; the members' visibility is known. */
    method DefaultMember(v: Valuation) returns (r: Option<Member>)
      requires Valid() && visible == g.Visible(v, true)
      ensures r.Some? ==> g.SettingOf(v, true).IsDefault(r.value)
      ensures r == None <==> forall m: Member :: !g.SettingOf(v, true).Shown(m)
    {
      ghost var s := g.SettingOf(v, true);
      for i := 0 to |g.defaults|
        invariant forall j :: 0 <= j < i ==> !s.Offers(j)
      {
        assert g.defaults[i] in g.defaults;
        if Cond(g.defaults[i].cond, g.With(v, true)) != NO && visible[g.defaults[i].member] {
          assert s.Offers(i);
          return Some(g.defaults[i].member);
        }
      }
      for m := 0 to |visible|
        invariant forall n: Member :: n < m ==> !s.Shown(n)
      {
        if visible[m] {
          assert s.Shown(m);
          return Some(m);
        }
      }
      r := None;
    }

    /** The loop of sym_calc_choice: sym_calc_visibility of each member. */
    method CalcMembers(v: Valuation, state: bool)
      requires Valid()
      modifies this`visible
      ensures Valid() && visible == g.Visible(v, state)
    {
      var seen: seq<bool> := [];
      for m := 0 to |g.members|
        invariant seen == g.Visible(v, state)[..m]
      {
        seen := seen + [AnyMet(g.members[m], g.With(v, state))];
      }
      visible := seen;
    }

    /** sym_calc_choice */
    method CalcChoice(v: Valuation) returns (r: Option<Member>)
      requires Valid()
      modifies this`userSet, this`on, this`visible
      ensures Valid() && visible == g.Visible(v, true)
      ensures userSet == (old(userSet) && forall m: Member :: g.SettingOf(v, true).Shown(m) ==> memberSet[m])
      ensures r.Some? ==> g.SettingOf(v, true).Selects(user, r.value)
      ensures r == None <==> forall m: Member :: !g.SettingOf(v, true).Shown(m)
      ensures on == (old(on) && r.Some?)
    {
      CalcMembers(v, true);
      ghost var s := g.SettingOf(v, true);
      var flag := userSet;
      for m := 0 to |visible|
        invariant flag == (userSet && forall n: Member :: n < m && s.Shown(n) ==> memberSet[n])
      {
        if visible[m] {
          flag := flag && memberSet[m];
        }
      }
      userSet := flag;
      if user.Some? && visible[user.value] {
        assert s.Shown(user.value);
        return user;
      }
      r := DefaultMember(v);
      if r == None {
        on := false;
      }
    }

    /** sym_calc_value of the choice, when other symbols have the values `v`. */
    method CalcValue(v: Valuation)
      requires Valid()
      modifies this`userSet, this`on, this`curr, this`visible
      ensures Valid()
      ensures var on0 := g.On(v, old(userSet), userTri); var s := g.SettingOf(v, on0);
              && visible == s.visible && on == curr.Some?
              && (curr.Some? <==> on0 && exists m: Member :: s.Shown(m))
              && (curr.Some? ==> s.Selects(user, curr.value))
              && userSet == (old(userSet) && (on0 ==> forall m: Member :: s.Shown(m) ==> memberSet[m]))
    {
      curr, on := None, g.On(v, userSet, userTri);
      if on {
        curr := CalcChoice(v);
        if curr.Some? {
          SelectsOne(g.SettingOf(v, true), user, curr.value, curr.value);
        }
      } else {
        CalcMembers(v, false);
      }
    }

    /** sym_calc_value of a member: a visible one is on if the choice has selected it; one that
        is not visible is off. */
    function MemberValue(m: Member): bool
      reads this
      requires m < |visible|
    {
      if visible[m] then curr == Some(m) else false
    }

    /** Everything is evaluated again, when other symbols have the values `v`.  Exactly one member
        is on when the choice is, if any can be seen; none otherwise. */
    method Recompute(v: Valuation) returns (values: seq<bool>)
      requires Valid()
      modifies this`userSet, this`on, this`curr, this`visible
      ensures Valid() && |values| == |g.members|
      ensures var on0 := g.On(v, old(userSet), userTri); var s := g.SettingOf(v, on0);
              && visible == s.visible && (on <==> on0 && exists m: Member :: s.Shown(m))
              && (on0 && (exists m: Member :: s.Shown(m)) ==>
                    exists m: Member ::
                      s.Selects(user, m) && forall n: Member | n < |values| :: values[n] <==> n == m)
              && (!on0 || !(exists m: Member :: s.Shown(m)) ==> forall n: Member | n < |values| :: !values[n])
              && userSet == (old(userSet) && (on0 ==> forall m: Member :: s.Shown(m) ==> memberSet[m]))
      ensures var wanted := Required(g, v) || Wished(g, v, old(userSet), userTri);
              if wanted && exists m: Member :: CanBeSeen(g, v, m)
              then exists m: Member :: Takes(g, v, user, m) && OnlyOn(values, m)
              else NoneOn(values)
    {
      ghost var before := userSet;
      CalcValue(v);
      values := seq(|visible|, m requires 0 <= m < |visible| reads this => MemberValue(m));
      if curr.Some? {
        ghost var s := g.SettingOf(v, true);
        SelectsOne(s, user, curr.value, curr.value);
      }
      InTermsOfConditions(g, v, user, before, userTri, values);
    }

    /** sym_set_tristate_value(sym, yes) on a member: refused only if it is off and not visible;
        else it is the user's member, and every visible member counts as set by the user. */
    method SetMember(m: Member) returns (accepted: bool)
      requires Valid() && m < |visible|
      modifies this`user, this`userSet, this`memberSet
      ensures Valid()
      ensures accepted == (old(MemberValue(m)) || visible[m])
      ensures accepted ==> user == Some(m) && userSet
      ensures accepted ==> forall n: Member :: n < |memberSet| ==>
                                                 memberSet[n] == (old(memberSet)[n] || n == m || visible[n])
      ensures !accepted ==> user == old(user) && userSet == old(userSet) && memberSet == old(memberSet)
    {
      if !MemberValue(m) && !visible[m] {
        return false;
      }
      memberSet := memberSet[m := true];
      user, userSet := Some(m), true;
      for n := 0 to |visible|
        invariant user == Some(m) && userSet && |memberSet| == |visible|
        invariant forall k: Member :: k < |memberSet| ==>
                                        memberSet[k] == (old(memberSet)[k] || k == m || (k < n && visible[k]))
      {
        if visible[n] {
          memberSet := memberSet[n := true];
        }
      }
      accepted := true;
    }

    /** Setting a visible member of a choice that is on.  Then everything is evaluated again,
        with new values for the members and for all that depends on them, as long as no
        condition of the choice or of its members mentions these.  The choice is still on, the
        member is on and all others are off, and the choice counts as decided by the user. */
    method Choose(m: Member, ghost v: Valuation, v': Valuation, ghost changed: set<Sym>) returns (values: seq<bool>)
      requires Valid() && g.On(v, userSet, userTri) && visible == g.Visible(v, true)
      requires m < |visible| && visible[m]
      requires forall s | s in changed :: !g.Mentions(s)
      requires forall s | s !in changed :: v.tri(s) == v'.tri(s) && v.str(s) == v'.str(s)
      modifies this
      ensures Valid() && |values| == |g.members| && on && userSet
      ensures forall n: Member | n < |values| :: values[n] <==> n == m
    {
      ApartIsAlike(g, v, v', changed);
      SettingSame(g, v, v', true);
      var ok := SetMember(m);
      OnSame(g, v, v', userSet, userTri);
      ghost var s := g.SettingOf(v', true);
      assert s.Shown(m) && s.visible == visible;
      values := Recompute(v');
    }
  }
}
