/** `Common::Singleton<Input>` (main/Singleton.h) with `DEFINE_SIGLETON(Input)`
    (main/Input.cpp): the static `mpInstance` is the one field of an object that stands for the
    program's static storage. */
module InputSingleton {
  import opened Input

  class Singleton {
    /** `mpInstance`. */
    var instance: Input?

    /** `DEFINE_SIGLETON`: `mpInstance` starts out null. */
    constructor ()
      ensures instance == null
    {
      instance := null;
    }

    /** `getInstance`: the stored `mpInstance`, null until `createInstance` has run. */
    method GetInstance() returns (p: Input?)
      ensures p == instance
    {
      p := instance;
    }

    /** `createInstance`: allocate an `Input` only when there is none; otherwise keep the
        existing one. */
    method CreateInstance()
      modifies this
      ensures instance != null
      ensures old(instance) != null ==> instance == old(instance)
      ensures old(instance) == null ==> fresh(instance) && instance.Valid() && !instance.inputCreated
    {
      if instance == null {
        instance := new Input();
      }
    }

    /** `destoryInstance`: delete the instance and reset `mpInstance` to null; nothing to do when there
        is none. */
    method DestoryInstance()
      modifies this
      ensures instance == null
    {
      if instance != null {
        instance := null;
      }
    }
  }

  /** Create is idempotent, destroy resets, and create after destroy gives a new instance. */
  method SingletonLifecycle() returns (first: Input, second: Input)
    ensures first != second
  {
    var s := new Singleton();
    var p := s.GetInstance();
    assert p == null;
    s.CreateInstance();
    first := s.instance;
    s.CreateInstance();
    assert s.instance == first;
    s.DestoryInstance();
    p := s.GetInstance();
    assert p == null;
    s.CreateInstance();
    second := s.instance;
  }
}
