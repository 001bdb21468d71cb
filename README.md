# LazyBox: a lazily computed, cached value

This project models `LazyBox<T>` from the Swift playground
`LazyPropertiesInStructs.playground/Contents.swift`. The box is created with a
computation and does not run it at construction. The first read of its
`value` property runs the computation, stores the result (`_value` goes from
`.NotYetComputed(computation)` to `.Computed(result)`) and returns it. Every
later read returns the stored result. The model also covers the counter demo
that follows the class.

Everything is in `lazy_box.dfy`, module `Lazy`:

- `LazyValue<S, T>` is the private enum `LazyValue<T>`, with the cases
  `NotYetComputed(computation)` and `Computed(value)`.
- `LazyBox<S, T>` is the class. Its one mutable field `state` stands for
  `_value`. The ghost field `invocations` counts how many times the stored
  computation has run, and `Valid()` keeps it at 1 when the result is cached
  and 0 otherwise.
- `LazyBox.Value` is the `value` getter. It follows the `switch` case by case.
  The optional local `returnValue` is an `Option<T>` that starts as `None`,
  and the `assert returnValue.Some?` before the unwrap is the source's
  `assert(returnValue != nil)`.
- `Read` is one read of the getter as a function on values. `ReadN` is `n`
  reads in a row. The lemmas about repeated reads are stated over them, and
  `Value`'s contract says it does exactly what `Read` describes.

**Side effects.** A Swift `() -> T` closure can have side effects. The demo's
closure increments a global `counter` and returns a value computed from it. A
Dafny arrow has no side effects, so the stored computation is typed
`S -> (S, T)`. It takes the state its side effects act on (for the demo, the
counter) and returns that state updated, paired with the result. `Value(env)`
passes this state through explicitly. This lets the model say that the side
effects happen once, not only that the result is cached.

## Model

| member | source | states |
|---|---|---|
| `Lazy.LazyBox.constructor` | LazyPropertiesInStructs.playground/Contents.swift:11-13 | the box starts as `NotYetComputed` holding exactly the given computation; the computation has not run (`invocations == 0`) and `Valid()` holds |
| `Lazy.LazyBox.Value` | LazyPropertiesInStructs.playground/Contents.swift:20-36 | a read does exactly what `Read` says for the old state. From pending it runs the computation once on the current environment, caches `Computed(result)`, returns the result and adds 1 to the invocation count. From computed it returns the cached value and changes neither the state, the environment nor the count. The count never exceeds 1, and the unwrap of `returnValue` is proved safe |
| `Lazy.Read` | LazyPropertiesInStructs.playground/Contents.swift:24-32 | after any read the box holds `Computed` of exactly the value returned. A cached value is returned with no side effect. A pending computation is applied once to the current environment, and both its new environment and its result are what the read produces |
| `Lazy.ReadN` | LazyPropertiesInStructs.playground/Contents.swift:20-36 | `n` reads in a row give `n` results, the first being what a single read returns. Zero reads leave the state and the environment as they were and run nothing (the computation is deferred) |
| `Lazy.ComputedIsStable` | LazyPropertiesInStructs.playground/Contents.swift:27-31 | once the state is `Computed(x)`, any number of further reads keep it `Computed(x)`, return `x` each time, leave the environment unchanged and run nothing. The only write to `_value` after init stores `Computed`, so the state never goes back to pending |
| `Lazy.IdempotentReads` | LazyPropertiesInStructs.playground/Contents.swift:44-45 | for any `n >= 1` reads, every read returns the value of the first read, and the box ends up caching that value |
| `Lazy.RunsAtMostOnce` | LazyPropertiesInStructs.playground/Contents.swift:39-46 | over `n` reads the computation runs exactly once if the box was pending and `n > 0`, and otherwise never runs |
| `Lazy.SideEffectsOnce` | LazyPropertiesInStructs.playground/Contents.swift:25-28 | before any read the environment is untouched. After `n >= 1` reads from a pending box, the environment is what one run of the computation makes of it, and the first result is that run's result |
| `Lazy.CounterDemo` | LazyPropertiesInStructs.playground/Contents.swift:39-46 | a box over the "increment `counter`, return `counter * 10`" closure, read twice from `counter == 0`, returns 10 both times and leaves `counter == 1` |

## Left out

- The serial dispatch queue (`dispatch_queue_create`, `dispatch_sync`) is not modelled. It only gives mutual exclusion between threads. Reads are modelled as sequential steps, so concurrent callers and the single-winner guarantee under concurrency are outside the model.
- `import UIKit` and `print(image.metadata)` are platform setup and output.
- The `Image` struct, whose metadata is a lazily computed `[String: AnyObject]`, is not modelled. It is a usage example over untyped Objective-C objects and shows nothing the counter demo does not already show.
- A computation that fails or traps is not modelled. Dafny functions are total, and the source defines no failure or poisoning policy.
- A computation that reads the same box again (reentrancy) is not modelled. The source leaves it undefined; under the serial queue it would deadlock.
- Swift's 64-bit `Int` in the counter demo is modelled as an unbounded `int`. The overflow trap cannot happen for the demo's values.
