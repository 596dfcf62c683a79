/** Stacked menus: each saves what it covers when it is drawn, and puts it back
    when it is dropped. */
module MenuStack {
  import opened FrameBuffer
  import opened Optional
  import opened RasterOp
  import opened RasterSave

  /** A rectangle of the view port covers this point of the board. */
  predicate Under(v: ViewPort, x: int, y: int, width: int, height: int, i: int, j: int) {
    Inside(i - v.left, x, width) && 0 <= i - v.left < v.width && Inside(j - v.top, y, height)
        && 0 <= j - v.top < v.height
  }

  class VisibleMenu {
    var mx: int
    var my: int
    var mWidth: int
    var mHeight: int
    var saveSize: int
    var bits: array?<Word>

    constructor ()
      ensures bits == null && saveSize == 0
    {
      mx, my, mWidth, mHeight, saveSize, bits := 0, 0, 0, 0, 0, null;
    }

    /** The save area has the memory that was asked for. */
    ghost predicate Valid()
      reads this
    {
      && saveSize >= 0
      && (bits == null ==> saveSize == 0)
      && (bits != null ==> bits.Length == saveSize / 2)
    }

    /** The menu covers this point of the board. */
    predicate Covers(v: ViewPort, i: int, j: int)
      reads this
    {
      Under(v, mx, my, mWidth, mHeight, i, j)
    }

    /** The save area holds what the picture shows under the menu. */
    ghost predicate Holds(v: ViewPort, s: Picture)
      requires Whole(s)
      reads this, bits
    {
      && bits != null && mWidth > 0 && mHeight > 0
      && Sized(Raster(bits, mWidth, mHeight))
      && forall i, j :: 0 <= i < SIZE && 0 <= j < SIZE && Covers(v, i, j) ==>
           PixelOr(Raster(bits, mWidth, mHeight), i - v.left - mx, j - v.top - my) == s[i][j]
    }

    /** The pictures differ under the menu only. */
    ghost predicate OnlyCovered(v: ViewPort, s: Picture, t: Picture)
      requires Whole(s) && Whole(t)
      reads this
    {
      forall i, j :: 0 <= i < SIZE && 0 <= j < SIZE && !Covers(v, i, j) ==> s[i][j] == t[i][j]
    }

    /** Makes sure that the save area is large enough, with some room to spare. */
    method Reserve(width: int, height: int)
      requires Valid() && width > 0 && height > 0
      modifies this`saveSize, this`bits
      ensures Valid() && (bits == old(bits) || fresh(bits))
      ensures bits != null && Sized(Raster(bits, width, height))
    {
      var size := BWSizeofRaster(width, height);
      assert size > 0 by {
        IndexBelowSize(width, height, 0, 0);
      }
      if size > saveSize {
        saveSize := size * 6 / 5;
        bits := new Word[saveSize / 2];
      }
      assert BWSizeofRaster(width, height) <= 2 * (saveSize / 2) by {
        assert size == 2 * ((width + 15) / 16 * height);
      }
    }

    /** Places the menu and saves what it is going to cover. */
    method Save(b: Board, v: ViewPort, x: int, y: int, width: int, height: int)
      requires Valid() && b.Valid() && v.OnBoard() && Meets(x, width, v.width) && Meets(y, height, v.height)
      modifies this, bits, b, b.pixels
      ensures Valid() && b.Valid() && (bits == old(bits) || fresh(bits))
      ensures Holds(v, b.Shot()) && b.Shot() == old(b.Shot())
      ensures mx == x && my == y && mWidth == width && mHeight == height
    {
      mx, my, mWidth, mHeight := x, y, width, height;
      b.SetFunction(COPY);
      hide Sized, Holds;
      Reserve(width, height);
      SamePicture(b.Shot(), old(b.Shot()));
      Fill(b, v);
    }

    /** Copies what is under the menu to the save area. */
    method Fill(b: Board, v: ViewPort)
      requires b.Valid() && v.OnBoard() && Meets(mx, mWidth, v.width) && Meets(my, mHeight, v.height)
      requires bits != null && Sized(Raster(bits, mWidth, mHeight))
      modifies bits, b`x, b`y, b`source, b`fifo, b`width, b.pixels
      ensures b.Valid() && Holds(v, b.Shot()) && b.Shot() == old(b.Shot())
    {
      hide Sized, Has, Pixel, PixelOr;
      var r := Raster(bits, mWidth, mHeight);
      ghost var s := b.Shot();
      BWCopyScreenToMemory(b, Some(v), mx, my, 0, 0, r, mWidth, mHeight);
      SamePicture(b.Shot(), s);
      forall i, j | 0 <= i < SIZE && 0 <= j < SIZE && Covers(v, i, j)
        ensures PixelOr(r, i - v.left - mx, j - v.top - my) == s[i][j]
      {
        var x, y := i - v.left - mx, j - v.top - my;
        SizedHasAll(r, x, y);
        PixelOrIs(r, x, y);
        assert Pixel(r, x, y) == s[x + mx + v.left][y + my + v.top];
      }
    }

    lemma PixelOrIs(r: Raster, x: int, y: int)
      requires Has(r, x, y)
      ensures PixelOr(r, x, y) == Pixel(r, x, y)
    {
    }

    /** Puts back what the menu covers. */
    method Restore(b: Board, v: ViewPort, ghost s: Picture)
      requires Valid() && b.Valid() && v.OnBoard() && Whole(s) && Holds(v, s) && OnlyCovered(v, s, b.Shot())
      modifies b, b.pixels
      ensures b.Valid() && b.Shot() == s
    {
      b.SetFunction(COPY);
      var r := Raster(bits, mWidth, mHeight);
      BWCopyMemoryToScreen(b, Some(v), 0, 0, r, mx, my, mWidth, mHeight);
      SamePicture(b.Shot(), s);
    }

    /** Everything that is drawn in the menu. */
    method Draw(b: Board, v: ViewPort, ink: (int, int) -> bool)
      requires b.Valid()
      modifies b.pixels
      ensures OnlyCovered(v, old(b.Shot()), b.Shot())
      ensures forall i, j :: 0 <= i < SIZE && 0 <= j < SIZE ==>
                b.pixels[i, j] == if Covers(v, i, j) then ink(i, j) else old(b.pixels[i, j])
    {
      forall i, j | 0 <= i < SIZE && 0 <= j < SIZE && Covers(v, i, j) {
        b.pixels[i, j] := ink(i, j);
      }
    }

    /** Saves what the menu is going to cover and draws it. */
    method Show(b: Board, v: ViewPort, x: int, y: int, width: int, height: int, ink: (int, int) -> bool)
      requires Valid() && b.Valid() && v.OnBoard() && Meets(x, width, v.width) && Meets(y, height, v.height)
      modifies this, bits, b, b.pixels
      ensures Valid() && b.Valid() && (bits == old(bits) || fresh(bits))
      ensures Holds(v, old(b.Shot())) && OnlyCovered(v, old(b.Shot()), b.Shot())
      ensures forall i, j :: 0 <= i < SIZE && 0 <= j < SIZE ==>
                b.pixels[i, j] == if Under(v, x, y, width, height, i, j) then ink(i, j) else old(b.pixels[i, j])
    {
      hide Holds;
      Save(b, v, x, y, width, height);
      assert forall i, j :: 0 <= i < SIZE && 0 <= j < SIZE ==> b.pixels[i, j] == b.Shot()[i][j] == old(b.Shot())[i][j];
      Draw(b, v, ink);
    }
  }

  /** The menus on the screen, the newest last. */
  class Menus {
    const board: Board
    const view: ViewPort
    const menus: seq<VisibleMenu>
    var visible: int

    /** What the screen showed before each visible menu was drawn, and shows now. */
    ghost var shots: seq<Picture>

    ghost predicate Places(n: int)
      reads this`shots, menus
    {
      && |menus| == 50 && view.OnBoard() && 0 <= n <= 50 && |shots| == n + 1
      && (forall k, l :: 0 <= k < l < 50 ==> menus[k] != menus[l])
      && (forall k, l :: 0 <= k < l < 50 ==> menus[k].bits == null || menus[k].bits != menus[l].bits)
      && (forall k :: 0 <= k <= n ==> Whole(shots[k]))
    }

    ghost function Areas(): set<object?>
      reads menus
    {
      set m | m in menus :: m.bits
    }

    /** Each of the first `n` menus has saved what it covers, and changed nothing
        else. */
    ghost predicate Stacked(n: int)
      reads this`shots, menus, Areas()
    {
      && Places(n) && (forall k :: 0 <= k < 50 ==> menus[k].Valid())
      && (forall k :: 0 <= k < n ==>
            menus[k].Holds(view, shots[k]) && menus[k].OnlyCovered(view, shots[k], shots[k + 1]))
    }

    ghost predicate Valid()
      reads this, menus, Areas(), board, board.pixels
    {
      Stacked(visible) && board.Valid() && shots[visible] == board.Shot()
    }

    constructor (b: Board, v: ViewPort)
      requires b.Valid() && v.OnBoard()
      ensures Valid() && board == b && view == v && visible == 0 && fresh(menus)
    {
      board, view := b, v;
      var m: seq<VisibleMenu> := [];
      for k := 0 to 50
        invariant |m| == k && fresh(m)
        invariant forall i :: 0 <= i < k ==> m[i].bits == null && m[i].saveSize == 0
        invariant forall i, j :: 0 <= i < j < k ==> m[i] != m[j]
      {
        var one := new VisibleMenu();
        m := m + [one];
      }
      menus, visible, shots := m, 0, [b.Shot()];
    }

    lemma SizeOf()
      requires Valid()
      ensures 0 <= visible <= 50 && |shots| == visible + 1 && |menus| == 50 && board.Valid()
              && shots[visible] == board.Shot()
    {
    }

    /** Takes down the menus from number `k` on: the screen is again as it was
        before menu `k` was drawn. */
    method DropMenu(k: int)
      requires Valid() && 0 <= k
      modifies this`visible, this`shots, menus, board, board.pixels
      ensures Valid() && visible == (if k < old(visible) then k else old(visible)) && visible < |old(shots)|
      ensures board.Shot() == old(shots)[visible] && shots == old(shots)[..visible + 1]
      ensures Areas() == old(Areas())
    {
      hide Valid, VisibleMenu.Holds, VisibleMenu.OnlyCovered, Places;
      SizeOf();
      while k < visible
        invariant Valid() && 0 <= visible <= old(visible) < |old(shots)| && (visible >= k || visible == old(visible))
        invariant shots == old(shots)[..visible + 1]
        invariant Areas() == old(Areas())
      {
        Pop();
      }
      SizeOf();
    }

    /** The body of the loop: takes down the newest menu. */
    method Pop()
      requires Valid() && visible > 0
      modifies this`visible, this`shots, menus, board, board.pixels
      ensures Valid() && visible == old(visible) - 1 && visible + 1 < |old(shots)| && shots == old(shots)[..visible + 1]
      ensures Areas() == old(Areas())
    {
      hide VisibleMenu.Holds, VisibleMenu.OnlyCovered, VisibleMenu.Valid, Stacked, Places;
      Newest(visible);
      var vm := menus[visible - 1];
      if vm.mWidth != 0 {
        PutBack(vm, visible);
        Forget(vm, visible);
      }
      visible := visible - 1;
    }

    /** Restores what the newest menu covers. */
    method PutBack(vm: VisibleMenu, ghost n: int)
      requires Stacked(n) && n > 0 && vm == menus[n - 1] && board.Valid() && shots[n] == board.Shot()
      modifies board, board.pixels
      ensures Stacked(n) && board.Valid() && board.Shot() == shots[n - 1]
    {
      hide VisibleMenu.Holds, VisibleMenu.OnlyCovered, VisibleMenu.Valid, Stacked, Places;
      Newest(n);
      NoArea();
      vm.Restore(board, view, shots[n - 1]);
    }

    /** The save areas are not the board. */
    lemma NoArea()
      ensures board as object? !in Areas() && board.pixels as object? !in Areas()
    {
    }

    lemma Newest(n: int)
      requires Stacked(n) && n > 0
      ensures |menus| == 50 && n <= 50 && |shots| == n + 1 && view.OnBoard() && Whole(shots[n - 1]) && Whole(shots[n])
      ensures var vm := menus[n - 1];
              vm.Valid() && vm.Holds(view, shots[n - 1]) && vm.OnlyCovered(view, shots[n - 1], shots[n])
                  && vm.mWidth > 0
    {
    }

    /** The newest menu is no longer there. */
    method Forget(vm: VisibleMenu, ghost n: int)
      requires Stacked(n) && n > 0 && vm == menus[n - 1]
      modifies this`shots, vm`mWidth
      ensures Stacked(n - 1) && shots == old(shots)[..n] && Areas() == old(Areas())
    {
      hide VisibleMenu.Holds, VisibleMenu.OnlyCovered;
      vm.mWidth := 0;
      shots := shots[..n];
    }

    /** Draws a menu on top: saves what it will cover and then draws `ink`, which
        may be anything, within it. */
    method DrawMenu(x: int, y: int, width: int, height: int, ink: (int, int) -> bool)
      requires Valid() && visible < 50 && Meets(x, width, view.width) && Meets(y, height, view.height)
      modifies this`visible, this`shots, menus, Areas(), board, board.pixels
      ensures Valid() && visible == old(visible) + 1 && shots == old(shots) + [board.Shot()]
      ensures fresh(Areas() - old(Areas()))
      ensures forall i, j :: 0 <= i < SIZE && 0 <= j < SIZE ==>
                board.pixels[i, j] == if Under(view, x, y, width, height, i, j) then ink(i, j)
                    else old(board.pixels[i, j])
    {
      hide VisibleMenu.Holds, VisibleMenu.OnlyCovered, VisibleMenu.Covers, Under;
      var vm := menus[visible];
      vm.Show(board, view, x, y, width, height, ink);
      Remember();
    }

    /** There is one more menu. */
    method Remember()
      requires Stacked(visible) && visible < 50 && board.Valid()
      requires menus[visible].Holds(view, shots[visible])
               && menus[visible].OnlyCovered(view, shots[visible], board.Shot())
      modifies this`visible, this`shots
      ensures Valid() && visible == old(visible) + 1 && shots == old(shots) + [board.Shot()] && Areas() == old(Areas())
    {
      hide VisibleMenu.Holds, VisibleMenu.OnlyCovered, VisibleMenu.Valid;
      shots := shots + [board.Shot()];
      visible := visible + 1;
    }
  }

  datatype Command = Draw(x: int, y: int, width: int, height: int, ink: (int, int) -> bool) | Drop(k: int)

  /** Whatever menus were drawn and dropped, dropping them all gives back the
      screen. Menus that cannot be seen, or too many of them, are not drawn. */
  method Session(m: Menus, commands: seq<Command>)
    requires m.Valid() && m.visible == 0
    modifies m`visible, m`shots, m.menus, m.Areas(), m.board, m.board.pixels
    ensures m.Valid() && m.visible == 0 && m.board.Shot() == old(m.board.Shot())
  {
    hide Menus.Valid, Menus.Places;
    m.SizeOf();
    for n := 0 to |commands|
      invariant m.Valid() && 0 <= m.visible && |m.shots| == m.visible + 1 && m.board.Valid()
      invariant m.shots[0] == old(m.board.Shot())
      invariant forall a :: a in m.Areas() ==> a in old(m.Areas()) || fresh(a)
    {
      match commands[n] {
        case Draw(x, y, width, height, ink) =>
          if m.visible < 50 && width > 0 && height > 0 && x < m.view.width && x + width > 0 && y < m.view.height
              && y + height > 0
             && m.view.width > 0 && m.view.height > 0 {
            m.DrawMenu(x, y, width, height, ink);
          }
        case Drop(k) =>
          if k >= 0 {
            m.DropMenu(k);
          }
      }
      m.SizeOf();
    }
    m.DropMenu(0);
  }
}
