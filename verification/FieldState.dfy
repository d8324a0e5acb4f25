/** The replicated field as the program keeps it: one object per field, changed in place by writes and merges. */
module FieldState {
  import opened Wire
  import opened SequenceNumbers
  import opened Fields

  class ReplicatedFieldHandler<T(==)> {
    var value: Option<T>
    var lastModified: SequenceNumber
    var defaultValue: Option<T>
    var newNetworkData: bool
    const zero: T

    function View(): Field<T>
      reads this
    {
      Field(value, lastModified, defaultValue, newNetworkData)
    }

    constructor (initial: Option<T>, zero: T)
      ensures View() == Field(initial, if initial.Some? then ValidNonSequence else Invalid, None, false)
      ensures this.zero == zero
    {
      value, defaultValue, newNetworkData := initial, None, false;
      lastModified := if initial.Some? then ValidNonSequence else Invalid;
      this.zero := zero;
    }

    method SetValue(newValue: T)
      modifies this
      ensures View() == Fields.SetValue(old(View()), newValue)
    {
      if defaultValue.Some? && defaultValue.value == newValue {
        lastModified := Invalid;
      } else {
        lastModified := ValidNonSequence;
      }
      value := Some(newValue);
    }

    method SetDefaultValue(newDefault: T)
      modifies this
      ensures View() == Fields.SetDefaultValue(old(View()), newDefault)
    {
      if !lastModified.IsValid() {
        value, defaultValue := Some(newDefault), Some(newDefault);
      }
    }

    method Access(edit: T -> (T, bool))
      modifies this
      ensures View() == Fields.Access(old(View()), zero, edit)
    {
      if value.Some? {
        var (edited, modified) := edit(value.value);
        value := Some(edited);
        if modified {
          lastModified := ValidNonSequence;
        }
      } else {
        var (edited, modified) := edit(zero);
        if modified {
          value, lastModified := Some(edited), ValidNonSequence;
        }
      }
    }

    method MergeAndUpdateSequence(prior: ReplicatedFieldHandler<T>, incoming: ReplicatedFieldHandler<T>,
                                  stamp: SequenceNumber, inherit: bool) returns (detected: bool)
      requires prior != this && incoming != this
      requires prior.zero == incoming.zero == zero
      modifies this
      ensures Merged(View(), detected)
           == if prior == incoming then Merged(MergeSelf(old(View()), old(prior.View()), stamp), true)
              else Merge(old(prior.View()), old(incoming.View()), stamp, inherit, zero)
    {
      newNetworkData := false;
      detected := true;
      if prior == incoming {
        if incoming.lastModified.IsValid() {
          lastModified, value, newNetworkData := stamp, incoming.value, true;
        } else if incoming.defaultValue.Some? {
          value := incoming.value;
        }
        return;
      }
      defaultValue := if prior.defaultValue.Some? then prior.defaultValue else incoming.defaultValue;
      var before, after := prior.View().Effective(zero), incoming.View().Effective(zero);
      if IsDefaultValue(incoming.View()) {
        if !prior.lastModified.IsValid() && before == after {
          lastModified := Invalid;
          newNetworkData := inherit && prior.newNetworkData;
          detected := false;
        } else if before == after {
          lastModified := prior.lastModified;
          newNetworkData := prior.newNetworkData;
          detected := false;
        } else {
          lastModified := stamp;
          newNetworkData := true;
        }
        value := Some(after);
        return;
      }
      if incoming.lastModified.IsValid() {
        if prior.lastModified.IsValid() && before == after {
          lastModified, value := prior.lastModified, prior.value;
          newNetworkData := inherit && prior.newNetworkData;
          detected := false;
        } else {
          lastModified, value := stamp, incoming.value;
          newNetworkData := true;
        }
      } else {
        lastModified, value := prior.lastModified, prior.value;
        newNetworkData := inherit && prior.newNetworkData;
        detected := false;
      }
    }
  }
}
