/**
Changing a role's permissions in src/routes/permissionAdmin.ts: the stored grants that
`PermissionService.updateRolePermissions` changes, the matrix that the handler computes for the
audit log, and the compensating update when the audit log cannot be written.
*/
module PermissionUndo {
  import opened Common

  datatype Permission = Permission(moduleName: string, action: string)

  datatype Update = Update(permission: Permission, granted: bool)

  /** One update of the stored grants; a pair without a row in `permissions` is skipped. */
  function Apply(known: set<Permission>, grants: set<Permission>, u: Update): set<Permission> {
    if u.permission !in known then grants
    else if u.granted then grants + {u.permission}
    else grants - {u.permission}
  }

  function ApplyAll(known: set<Permission>, grants: set<Permission>, us: seq<Update>): set<Permission> {
    if us == [] then grants
    else Apply(known, ApplyAll(known, grants, us[..|us| - 1]), us[|us| - 1])
  }

  /** The updates of the compensating call: the same list, in the same order, reversed one by one. */
  function Inverted(us: seq<Update>): (r: seq<Update>)
    ensures |r| == |us| && forall i :: 0 <= i < |r| ==> r[i] == Update(us[i].permission, !us[i].granted)
  {
    seq(|us|, i requires 0 <= i < |us| => Update(us[i].permission, !us[i].granted))
  }

  /** What the last update of a pair says, if there is one. */
  function LastWord(us: seq<Update>, p: Permission): Option<bool> {
    if us == [] then None
    else if us[|us| - 1].permission == p then Some(us[|us| - 1].granted)
    else LastWord(us[..|us| - 1], p)
  }

  // ---------------------------------------------------------------- the matrix for the audit log

  type Matrix = map<string, seq<string>>

  function Row(m: Matrix, moduleName: string): seq<string> {
    if moduleName in m then m[moduleName] else []
  }

  function FilterOut(actions: seq<string>, a: string): (r: seq<string>)
    ensures forall x :: x in r <==> x in actions && x != a
  {
    if actions == [] then []
    else
      var rest := FilterOut(actions[1..], a);
      assert forall x :: x in actions <==> x == actions[0] || x in actions[1..];
      if actions[0] == a then rest else [actions[0]] + rest
  }

  function Fold(m: Matrix, u: Update): Matrix {
    var Permission(moduleName, a) := u.permission;
    var row := Row(m, moduleName);
    m[moduleName := if u.granted then (if a in row then row else row + [a]) else FilterOut(row, a)]
  }

  function FoldAll(m: Matrix, us: seq<Update>): Matrix {
    if us == [] then m else Fold(FoldAll(m, us[..|us| - 1]), us[|us| - 1])
  }

  predicate Granted(m: Matrix, p: Permission) {
    p.action in Row(m, p.moduleName)
  }

  ghost predicate DuplicateFree(m: Matrix) {
    forall k :: k in m ==> NoDuplicates(m[k])
  }

  // ---------------------------------------------------------------- the handler

  class RolePermissions {
    const known: set<Permission>
    var grants: set<Permission>

    constructor (known: set<Permission>, grants: set<Permission>)
      ensures this.known == known && this.grants == grants
    {
      this.known, this.grants := known, grants;
    }

    /** `updateRolePermissions` */
    method UpdateRole(us: seq<Update>)
      modifies this`grants
      ensures grants == ApplyAll(known, old(grants), us)
    {
      for n := 0 to |us|
        invariant grants == ApplyAll(known, old(grants), us[..n])
      {
        var u := us[n];
        assert us[..n + 1][..n] == us[..n];
        if u.permission !in known {
          continue;
        }
        if u.granted {
          grants := grants + {u.permission};
        } else {
          grants := grants - {u.permission};
        }
      }
      assert us[..|us|] == us;
    }

    method NewPermissions(oldMatrix: Matrix, us: seq<Update>) returns (m: Matrix)
      ensures m == FoldAll(oldMatrix, us)
    {
      m := oldMatrix;
      for n := 0 to |us|
        invariant m == FoldAll(oldMatrix, us[..n])
      {
        assert us[..n + 1][..n] == us[..n];
        var Permission(moduleName, a) := us[n].permission;
        if moduleName !in m {
          m := m[moduleName := []];
        }
        if us[n].granted {
          if a !in m[moduleName] {
            m := m[moduleName := m[moduleName] + [a]];
          }
        } else {
          m := m[moduleName := FilterOut(m[moduleName], a)];
        }
        assert m == Fold(FoldAll(oldMatrix, us[..n]), us[n]);
      }
      assert us[..|us|] == us;
    }

    /** The handler from the update on: what it reports, and what is stored after it. */
    method Change(oldMatrix: Matrix, us: seq<Update>, auditWritten: bool, undoSucceeds: bool) returns (ok: bool, newState: Matrix)
      modifies this`grants
      ensures ok == auditWritten && newState == FoldAll(oldMatrix, us)
      ensures ok || !undoSucceeds ==> grants == ApplyAll(known, old(grants), us)
      ensures !ok && undoSucceeds ==> grants == ApplyAll(known, ApplyAll(known, old(grants), us), Inverted(us))
      ensures !ok && undoSucceeds ==> (grants == old(grants) <==> UndoExact(known, old(grants), us))
    {
      UpdateRole(us);
      newState := NewPermissions(oldMatrix, us);
      if !auditWritten {
        // the update is one transaction; when it fails, the error is only logged
        if undoSucceeds {
          UpdateRole(Inverted(us));
          UndoRestoresIff(known, old(grants), us);
        }
        return false, newState;
      }
      return true, newState;
    }
  }

  // ---------------------------------------------------------------- the compensating update

  /** Last writer wins: whether a pair is granted afterwards depends on its last update alone. */
  lemma {:induction false} LastWriterWins(known: set<Permission>, grants: set<Permission>, us: seq<Update>, p: Permission)
    ensures p in ApplyAll(known, grants, us)
            <==> if p in known && LastWord(us, p).Some? then LastWord(us, p).value else p in grants
  {
    if us != [] {
      LastWriterWins(known, grants, us[..|us| - 1], p);
    }
  }

  lemma {:induction false} LastWordInverted(us: seq<Update>, p: Permission)
    ensures LastWord(Inverted(us), p)
            == match LastWord(us, p) case None => None case Some(g) => Some(!g)
  {
    if us != [] {
      LastWordInverted(us[..|us| - 1], p);
      assert Inverted(us)[..|us| - 1] == Inverted(us[..|us| - 1]);
    }
  }

  /** For every pair the batch touches, its last update says the opposite of what was stored before. */
  ghost predicate UndoExact(known: set<Permission>, grants: set<Permission>, us: seq<Update>) {
    forall p :: p in known && LastWord(us, p).Some? ==> LastWord(us, p).value != (p in grants)
  }

  /**
  The compensating update restores the stored grants exactly when the batch really changed every
  pair that it touches: when the last update of each differs from what was stored.
  */
  lemma UndoRestoresIff(known: set<Permission>, grants: set<Permission>, us: seq<Update>)
    ensures ApplyAll(known, ApplyAll(known, grants, us), Inverted(us)) == grants <==> UndoExact(known, grants, us)
  {
    var after := ApplyAll(known, grants, us);
    var undone := ApplyAll(known, after, Inverted(us));
    forall p
      ensures p in undone
              <==> if p in known && LastWord(us, p).Some? then !LastWord(us, p).value else p in grants
    {
      LastWriterWins(known, grants, us, p);
      LastWriterWins(known, after, Inverted(us), p);
      LastWordInverted(us, p);
    }
    if undone == grants {
      forall p | p in known && LastWord(us, p).Some?
        ensures LastWord(us, p).value != (p in grants)
      {
        assert p in undone <==> p in grants;
      }
    }
  }

  /** Granting what is already granted is undone by revoking it. */
  lemma RedundantGrantIsLost(p: Permission)
    ensures var us := [Update(p, true)];
            ApplyAll({p}, ApplyAll({p}, {p}, us), Inverted(us)) == {}
  {
    var us := [Update(p, true)];
    assert us[..0] == [] && Inverted(us) == [Update(p, false)] && Inverted(us)[..0] == [];
    assert ApplyAll({p}, {p}, us) == {p};
  }

  // ---------------------------------------------------------------- the audited state

  lemma FoldGrants(m: Matrix, u: Update, p: Permission)
    ensures Granted(Fold(m, u), p) <==> if p == u.permission then u.granted else Granted(m, p)
  {
  }

  /** The matrix computed in place has the last writer win as well. */
  lemma {:induction false} FoldLastWriterWins(m: Matrix, us: seq<Update>, p: Permission)
    ensures Granted(FoldAll(m, us), p) <==> if LastWord(us, p).Some? then LastWord(us, p).value else Granted(m, p)
  {
    if us != [] {
      FoldLastWriterWins(m, us[..|us| - 1], p);
      FoldGrants(FoldAll(m, us[..|us| - 1]), us[|us| - 1], p);
    }
  }

  lemma {:induction false} FilterOutDuplicateFree(actions: seq<string>, a: string)
    requires NoDuplicates(actions)
    ensures NoDuplicates(FilterOut(actions, a))
  {
    if actions != [] {
      FilterOutDuplicateFree(actions[1..], a);
      assert actions[0] !in actions[1..];
    }
  }

  lemma {:induction false} FoldKeepsDuplicateFree(m: Matrix, us: seq<Update>)
    requires DuplicateFree(m)
    ensures DuplicateFree(FoldAll(m, us))
  {
    if us != [] {
      var before, u := FoldAll(m, us[..|us| - 1]), us[|us| - 1];
      FoldKeepsDuplicateFree(m, us[..|us| - 1]);
      var row := Row(before, u.permission.moduleName);
      assert NoDuplicates(row);
      FilterOutDuplicateFree(row, u.permission.action);
    }
  }

  ghost function Touched(us: seq<Update>): set<string> {
    set i | 0 <= i < |us| :: us[i].permission.moduleName
  }

  /** The matrix has a row for every module it had, and for every one the batch names. */
  lemma {:induction false} FoldModules(m: Matrix, us: seq<Update>)
    ensures FoldAll(m, us).Keys == m.Keys + Touched(us)
  {
    if us != [] {
      var n := |us| - 1;
      FoldModules(m, us[..n]);
      assert Touched(us) == Touched(us[..n]) + {us[n].permission.moduleName};
    }
  }

  lemma {:induction false} FilterOutKeepsFront(front: seq<string>, rest: seq<string>, a: string)
    requires a !in front
    ensures front <= FilterOut(front + rest, a)
  {
    if front != [] {
      assert (front + rest)[0] == front[0] && (front + rest)[1..] == front[1..] + rest;
      assert a !in front[1..];
      FilterOutKeepsFront(front[1..], rest, a);
    }
  }

  /** Actions that the batch leaves alone stay where they are, and new ones come after them. */
  lemma {:induction false} NewActionsFollow(m: Matrix, us: seq<Update>, moduleName: string)
    requires forall a :: a in Row(m, moduleName) ==> LastWord(us, Permission(moduleName, a)).None?
    ensures Row(m, moduleName) <= Row(FoldAll(m, us), moduleName)
  {
    if us != [] {
      var front, before, u := Row(m, moduleName), FoldAll(m, us[..|us| - 1]), us[|us| - 1];
      NewActionsFollow(m, us[..|us| - 1], moduleName);
      var row := Row(before, moduleName);
      if u.permission.moduleName == moduleName {
        var a := u.permission.action;
        assert a !in front by {
          assert a in front ==> LastWord(us, Permission(moduleName, a)).None?;
        }
        FilterOutKeepsFront(front, row[|front|..], a);
        assert front + row[|front|..] == row;
      }
    }
  }

  /** The matrix lists exactly the stored grants. */
  ghost predicate Shows(m: Matrix, grants: set<Permission>) {
    forall p :: Granted(m, p) <==> p in grants
  }

  /**
  The state that the audit log records is the state that is stored, exactly when the batch ends
  with a revocation for every touched pair that has no row in `permissions`.
  */
  lemma AuditedStateIsStoredIff(known: set<Permission>, grants: set<Permission>, m: Matrix, us: seq<Update>)
    requires Shows(m, grants) && grants <= known
    ensures Shows(FoldAll(m, us), ApplyAll(known, grants, us))
            <==> forall p :: p !in known && LastWord(us, p).Some? ==> !LastWord(us, p).value
  {
    forall p
      ensures Granted(FoldAll(m, us), p) == (p in ApplyAll(known, grants, us))
              <==> (p !in known && LastWord(us, p).Some? ==> !LastWord(us, p).value)
    {
      FoldLastWriterWins(m, us, p);
      LastWriterWins(known, grants, us, p);
    }
  }
}
