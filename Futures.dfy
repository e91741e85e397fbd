/**
 * The one-shot futures that wait for a button (`driver/button/future.rs`,
 * `bottom_driver/Bottom.rs`, `button.rs`).  Each is driven by a `yielded_once`
 * flag.  Wakers are abstracted to the identity of the task being polled: the
 * drivers remember which task to wake, and the model counts how often they were
 * told.
 */
module Futures {
  import opened Wrappers

  /** What one call of `poll` yields. */
  datatype Poll = Ready | Pending

  /** The button state behind `PLATFORM.button`: a latched press and a registered waker. */
  class ButtonState {
    var pressed: bool
    var waker: Option<nat>
    var registrations: nat

    constructor ()
      ensures !pressed && waker == None && registrations == 0
    {
      pressed := false;
      waker := None;
      registrations := 0;
    }

    /** `get_pressed`: reports the latched press and consumes it. */
    method GetPressed() returns (p: bool)
      modifies this`pressed
      ensures p == old(pressed) && !pressed
    {
      p := pressed;
      pressed := false;
    }

    /** `register_waker`. */
    method RegisterWaker(task: nat)
      modifies this`waker, this`registrations
      ensures waker == Some(task) && registrations == old(registrations) + 1
    {
      waker := Some(task);
      registrations := registrations + 1;
    }
  }

  /** `ButtonFuture`. */
  class ButtonFuture {
    var yieldedOnce: bool

    /** `ButtonFuture::new`, and `Default`, which calls it. */
    constructor ()
      ensures !yieldedOnce
    {
      yieldedOnce := false;
    }

    /**
     * `poll`: every poll consumes the latched press and completes iff there was
     * one.  Only a first poll that finds no press registers the waker, and only it
     * sets the flag.
     */
    method Poll(button: ButtonState, task: nat) returns (r: Poll)
      modifies this, button
      ensures r == Ready <==> old(button.pressed)
      ensures !button.pressed
      ensures if !old(yieldedOnce) && !old(button.pressed)
              then button.waker == Some(task) && button.registrations == old(button.registrations) + 1
              else button.waker == old(button.waker) && button.registrations == old(button.registrations)
      ensures yieldedOnce <==> old(yieldedOnce) || !old(button.pressed)
    {
      if yieldedOnce {
        var p := button.GetPressed();
        if p {
          return Ready;
        }
        r := Pending;
      } else {
        var p := button.GetPressed();
        if p {
          r := Ready;
        } else {
          button.RegisterWaker(task);
          yieldedOnce := true;
          r := Pending;
        }
      }
    }
  }

  /**
   * Polling a fresh button future while no press arrives: the waker is registered
   * once, on the first poll, however many polls follow.
   */
  method PollWithoutPress(button: ButtonState, task: nat, n: nat) returns (f: ButtonFuture)
    requires !button.pressed
    modifies button
    ensures fresh(f) && (n > 0 <==> f.yieldedOnce)
    ensures button.registrations == old(button.registrations) + (if n > 0 then 1 else 0)
    ensures !button.pressed
  {
    f := new ButtonFuture();
    var i := 0;
    while i < n
      invariant 0 <= i <= n && !button.pressed
      invariant f.yieldedOnce <==> i > 0
      invariant button.registrations == old(button.registrations) + (if i > 0 then 1 else 0)
    {
      var r := f.Poll(button, task);
      i := i + 1;
    }
  }

  /** The driver's task slot (`BOT_DRIVER.set_task`, `ButtonDriver::set_task`). */
  class TaskSlot {
    var task: Option<nat>
    var sets: nat

    constructor ()
      ensures task == None && sets == 0
    {
      task := None;
      sets := 0;
    }

    method SetTask(t: nat)
      modifies this
      ensures task == Some(t) && sets == old(sets) + 1
    {
      task := Some(t);
      sets := sets + 1;
    }
  }

  /**
   * A future that awaits one driver event: `bottom`, built by
   * `wait_for_rising_edge` and registered with the global `BOT_DRIVER`, and
   * `Button`, built by `wait_for_press` with the driver it names.
   */
  class OneShot {
    const driver: TaskSlot
    var yieldedOnce: bool

    /** `bottom::wait_for_rising_edge`: `driver` is the global `BOT_DRIVER`. */
    constructor WaitForRisingEdge(botDriver: TaskSlot)
      ensures driver == botDriver && !yieldedOnce
    {
      driver := botDriver;
      yieldedOnce := false;
    }

    /** `Button::wait_for_press`. */
    constructor WaitForPress(driver: TaskSlot)
      ensures this.driver == driver && !yieldedOnce
    {
      this.driver := driver;
      yieldedOnce := false;
    }

    /**
     * `poll`: the first poll hands the polling task to the driver and is Pending;
     * every later poll is Ready and leaves the driver alone.
     */
    method Poll(task: nat) returns (r: Poll)
      modifies this, driver
      ensures yieldedOnce
      ensures r == Ready <==> old(yieldedOnce)
      ensures old(yieldedOnce) ==> driver.task == old(driver.task) && driver.sets == old(driver.sets)
      ensures !old(yieldedOnce) ==> driver.task == Some(task) && driver.sets == old(driver.sets) + 1
    {
      if yieldedOnce {
        r := Ready;
      } else {
        driver.SetTask(task);
        yieldedOnce := true;
        r := Pending;
      }
    }
  }

  /**
   * Polling a fresh one-shot future n times: the driver is told once, and the
   * last poll is Ready iff there were at least two.
   */
  method PollOneShot(driver: TaskSlot, task: nat, n: nat) returns (last: Poll)
    requires n > 0
    modifies driver
    ensures driver.sets == old(driver.sets) + 1 && driver.task == Some(task)
    ensures last == Ready <==> n >= 2
  {
    var f := new OneShot.WaitForRisingEdge(driver);
    last := f.Poll(task);
    var i := 1;
    while i < n
      invariant 1 <= i <= n && f.yieldedOnce && f.driver == driver
      invariant driver.sets == old(driver.sets) + 1 && driver.task == Some(task)
      invariant last == Ready <==> i >= 2
    {
      last := f.Poll(task);
      i := i + 1;
    }
  }
}
